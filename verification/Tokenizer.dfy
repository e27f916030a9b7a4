/** gumbo_lex over all the states of gumbo-parser/src/tokenizer.c: every call
    returns a token, and repeated calls reach the end of the input. Attributes
    and doctype fields are not kept. */
module Tokenizer {
  import opened LexStates
  import opened Lookahead
  import R = RawText
  import C = CharRefs

  datatype Outcome = Continue | Emit(token: Token)

  const NONE: int := -1

  function CharToken(c: int): (t: Token)
  {
    if c == R.EOF then Eof else Char(c)
  }

  // The codes stand at the position, in any case unless it matters.
  predicate Matches(input: seq<int>, pos: nat, codes: seq<int>, caseSensitive: bool)
  {
    && pos + |codes| <= |input|
    && (input[pos..pos + |codes|] == codes
        || (!caseSensitive && R.LowerAll(input[pos..pos + |codes|]) == R.LowerAll(codes)))
  }

  // The three words that may follow "<!".
  lemma WordMatches(s: seq<int>, q: nat)
    requires q <= |s|
    ensures CodesOf("[CDATA[") == CDATA
    ensures Stands(s, q, '-') && Stands(s, q + 1, '-') <==> Matches(s, q, CodesOf("--"), true)
    ensures WordAt(s, q, 7) == CDATA <==> Matches(s, q, CodesOf("[CDATA["), true)
    ensures R.LowerAll(WordAt(s, q, 7)) == DOCTYPE <==> Matches(s, q, CodesOf("DOCTYPE"), false)
  {
    hide CodesOf, Stands, WordAt;
    WordIs(s, q);
  }

  // A word of letters has no greater-than sign, in whatever case it stands.
  lemma WordPlain(s: seq<int>, q: nat, word: string)
    requires q <= |s| && forall i :: 0 <= i < |word| ==> 'A' <= word[i] <= 'Z'
    requires Matches(s, q, CodesOf(word), false)
    ensures q + |word| <= |s| && forall i :: q <= i < q + |word| ==> s[i] != '>' as int
  {
    var codes, w := CodesOf(word), s[q..q + |word|];
    forall i | q <= i < q + |word| ensures s[i] != '>' as int {
      assert w[i - q] == s[i] && codes[i - q] == word[i - q] as int;
      assert R.LowerAll(w)[i - q] == R.LowerCode(s[i]) && R.LowerAll(codes)[i - q] == R.LowerCode(codes[i - q]);
    }
  }

  class Lexer {
    const input: seq<int>              // code points, carriage returns normalised
    const tagOf: seq<int> -> int       // gumbo_tagn_enum
    const named: seq<int> -> C.Match   // match_named_char_ref
    var pos: nat
    var mark: nat
    var resume: int                    // resume_pos, or NONE
    var reconsume: bool
    var buffered: int                  // buffered_emit_char
    var state: State
    var returnState: State
    var code: nat                      // character_reference_code
    var temporary: seq<int>
    var name: seq<int>                 // the tag buffer while it holds a name
    var isStart: bool
    var collecting: bool               // a tag's attribute vector is allocated
    var lastStartTag: int
    var foreign: bool                  // is_adjusted_current_node_foreign

    ghost predicate Codes()
    {
      C.IsMatcher(input, named) && forall i :: 0 <= i < |input| ==> input[i] >= 0
    }

    // The state suits the position q.
    ghost predicate InvAt(q: int)
      reads this`state, this`returnState, this`mark, this`collecting, this`code, this`temporary
    {
      Suits(state, returnState, q, mark, collecting, |input|) && IsReturn(returnState) && code <= C.MAX_CHAR + 1
      && (NeedsEmpty(state) ==> temporary == [])
    }

    // Where the state goes on once everything behind the mark has been emitted.
    ghost function Frontier(): (q: nat)
      reads this`resume, this`pos
    {
      if resume >= 0 then resume else pos
    }

    ghost predicate Valid()
      reads this
    {
      && Codes() && InvAt(Frontier())
      && !reconsume && (resume == NONE || pos <= resume <= |input|)
      && (buffered == NONE || (buffered >= 0 && resume == NONE))
    }

    // A state function is about to be called.
    ghost predicate Ready()
      reads this
    {
      Codes() && InvAt(pos) && !reconsume && resume == NONE && buffered == NONE
    }

    // The result of a state function that was called in state s at p.
    ghost predicate Done(r: Outcome, s: State, p: nat)
      reads this
    {
      match r
      case Continue =>
        resume == NONE && buffered == NONE && (!reconsume ==> pos < |input|)
        && (var q := if reconsume then pos else pos + 1; InvAt(q) && Falls(input, s, p, state, q))
      case Emit(t) =>
        (t == Eof && pos == |input|)
        || (&& t != Eof && InvAt(Frontier()) && Falls(input, s, p, state, Frontier())
            && (resume == NONE || pos <= resume <= |input|) && (buffered == NONE || (buffered >= 0 && resume == NONE))
            && (t.Tag? ==> state == Text(Data) && resume == NONE && buffered == NONE))
    }

    ghost function Here(): (v: View)
      reads this`state, this`mark, this`isStart, this`name, this`temporary, this`foreign
    {
      View(state, mark, isStart, name, temporary, foreign)
    }

    // The token that is coming, if the lexer is at position q.
    ghost function Coming(q: nat): (r: Reading)
      requires q <= |input|
      reads this`state, this`mark, this`isStart, this`name, this`temporary, this`foreign
    {
      Ahead(input, Here(), q)
    }

    // A state function goes on towards the token that was coming, or returns it.
    ghost predicate Keeps(r: Outcome, g: Reading)
      reads this
    {
      g.Reads? ==>
        match r
        case Continue => var q := if reconsume then pos else pos + 1; q <= |input| && Coming(q) == g
        case Emit(t) => g == Reads(t, pos) && (t != Eof ==> Resting())
    }

    // Between two tokens in the data state: what may still be handed out from
    // before is plain.
    ghost predicate Resting()
      reads this`state, this`buffered, this`resume, this`pos
    {
      && state == Text(Data) && buffered == NONE
      && (resume == NONE
          || (pos <= resume <= |input|
              && forall i :: pos <= i < resume ==> input[i] != '<' as int && input[i] != '&' as int))
    }

    constructor (input: seq<int>, tagOf: seq<int> -> int, named: seq<int> -> C.Match)
      requires C.IsMatcher(input, named) && forall i :: 0 <= i < |input| ==> input[i] >= 0
      ensures Valid() && this.input == input && pos == 0 && Resting()
    {
      this.input, this.tagOf, this.named := input, tagOf, named;
      pos, mark, resume, reconsume, buffered := 0, 0, NONE, false, NONE;
      state, returnState, code, temporary, name := Text(Data), Text(Data), 0, [], [];
      isStart, collecting, lastStartTag, foreign := false, false, NONE, false;
    }

    lemma NotNegative()
      requires Codes()
      ensures pos < |input| ==> input[pos] >= 0
    {
    }

    // utf8iterator_current
    function Current(): (c: int)
      reads this`pos
    {
      At(input, pos)
    }

    // utf8iterator_next makes no progress at the end.
    method Next()
      modifies this`pos
      ensures pos == if old(pos) < |input| then old(pos) + 1 else old(pos)
    {
      if pos < |input| {
        pos := pos + 1;
      }
    }

    method ReconsumeIn(s: State)
      modifies this`reconsume, this`state
      ensures reconsume && state == s
    {
      reconsume := true;
      state := s;
    }

    // finish_token
    method EmitToken(t: Token) returns (r: Outcome)
      modifies this`pos
      ensures r == Emit(t)
      ensures pos == if !reconsume && old(pos) < |input| then old(pos) + 1 else old(pos)
    {
      if !reconsume {
        Next();
      }
      return Emit(t);
    }

    method EmitChar(c: int) returns (r: Outcome)
      modifies this`pos
      ensures r == Emit(CharToken(c))
      ensures pos == if !reconsume && old(pos) < |input| then old(pos) + 1 else old(pos)
    {
      r := EmitToken(CharToken(c));
    }

    // emit_from_mark: there is always a character to emit.
    method EmitFromMark() returns (r: Outcome)
      requires Codes() && mark < pos <= |input|
      modifies this`pos, this`resume, this`reconsume
      ensures resume == old(pos) && pos == mark + 1 && !reconsume && r == Emit(Char(input[mark]))
    {
      resume := pos;
      pos := mark;
      reconsume := false;
      r := EmitChar(Current());
    }

    // start_new_tag: no other tag is being collected.
    method StartNewTag(start: bool)
      requires !collecting && R.IsAlpha(Current())
      modifies this`collecting, this`isStart, this`name
      ensures collecting && isStart == start && name == []
    {
      collecting := true;
      isStart := start;
      name := [];
    }

    // emit_current_tag
    method EmitCurrentTag() returns (r: Outcome)
      requires collecting
      modifies this`pos, this`collecting, this`lastStartTag
      ensures !collecting && r == Emit(Tag(isStart, name))
      ensures pos == if !reconsume && old(pos) < |input| then old(pos) + 1 else old(pos)
    {
      if isStart {
        lastStartTag := tagOf(name);
      }
      collecting := false;
      r := EmitToken(Tag(isStart, name));
    }

    // The end of the input inside a tag.
    method AbandonAtEof() returns (r: Outcome)
      requires collecting && pos == |input|
      modifies this`pos, this`collecting
      ensures r == Emit(Eof) && pos == |input|
    {
      collecting := false;
      r := EmitChar(R.EOF);
    }

    method EmitComment() returns (r: Outcome)
      modifies this`pos, this`temporary
      ensures r == Emit(CommentToken(old(temporary))) && temporary == []
      ensures pos == if !reconsume && old(pos) < |input| then old(pos) + 1 else old(pos)
    {
      var text := temporary;
      temporary := [];
      r := EmitToken(CommentToken(text));
    }

    // utf8iterator_maybe_consume_match
    method ConsumeMatch(word: string, caseSensitive: bool) returns (matched: bool)
      requires pos <= |input| && |word| > 0
      modifies this`pos
      ensures matched == Matches(input, old(pos), CodesOf(word), caseSensitive)
      ensures if matched then pos == old(pos) + |word| <= |input| else pos == old(pos)
    {
      var codes := CodesOf(word);
      matched := Matches(input, pos, codes, caseSensitive);
      if matched {
        pos := pos + |codes|;
      }
    }

    // handle_data_state
    method HandleData(c: int) returns (r: Outcome)
      requires Ready() && state == Text(Data) && c == Current()
      modifies this
      ensures Done(r, old(state), old(pos))
      ensures Keeps(r, old(Coming(pos)))
    {
      hide Ahead, Codes;
      NotNegative();
      DataAhead(input, Here(), pos);
      if c == '&' as int {
        r := MarkHere(Ref(CharRef));
      } else if c == '<' as int {
        r := MarkHere(Guess(TagOpen));
      } else {
        r := EmitChar(c);
      }
    }

    // A tag or a reference may begin at the current character.
    method MarkHere(s: State) returns (r: Outcome)
      requires Ready() && pos < |input|
      requires (state == Text(Data) && (s == Guess(TagOpen) || s == Ref(CharRef)))
               || (state == Text(Rcdata) && (s == Guess(RcdataLt) || s == Ref(CharRef)))
      modifies this`state, this`returnState, this`mark
      ensures Done(r, old(state), pos) && r == Continue && state == s && mark == pos
    {
      hide Codes;
      if s.Ref? {
        returnState := state;
      }
      state := s;
      mark := pos;
      r := Continue;
    }

    // handle_rcdata_state
    method HandleRcdata(c: int) returns (r: Outcome)
      requires Ready() && state == Text(Rcdata) && c == Current()
      modifies this
      ensures Done(r, old(state), old(pos))
    {
      if c == '&' as int {
        r := MarkHere(Ref(CharRef));
      } else if c == '<' as int {
        r := MarkHere(Guess(RcdataLt));
      } else {
        r := EmitChar(if c == 0 then R.REPLACEMENT else c);
      }
    }

    // handle_rawtext_state, handle_script_data_state and handle_plaintext_state
    method HandleRawtext(c: int) returns (r: Outcome)
      requires Ready() && (state == Text(Rawtext) || state == Text(ScriptData) || state == Text(Plaintext))
      requires c == Current()
      modifies this
      ensures Done(r, old(state), old(pos))
    {
      if c == '<' as int && state != Text(Plaintext) {
        state := if state == Text(Rawtext) then Guess(RawtextLt) else Guess(ScriptDataLt);
        mark := pos;
        return Continue;
      }
      r := EmitChar(if c == 0 then R.REPLACEMENT else c);
    }

    // handle_tag_open_state
    method HandleTagOpen(c: int) returns (r: Outcome)
      requires Ready() && state == Guess(TagOpen) && c == Current()
      modifies this
      ensures Done(r, old(state), old(pos))
      ensures Keeps(r, old(Coming(pos)))
    {
      hide Codes, Ahead, Suits, Falls, Rank, Settled, NeedsEmpty, IsReturn;
      InBounds();
      NotNegative();
      TagOpenAhead(input, Here(), pos);
      if c == '!' as int {
        r := BeginDeclaration();
      } else if c == '/' as int {
        r := GoOnIn(Guess(EndTagOpen));
      } else if c == '?' as int {
        r := BeginBogus();
      } else if R.IsAlpha(c) {
        r := BeginTag(true);
      } else {
        r := GiveBackLt();
      }
    }

    // The less-than sign is text after all.
    method GiveBackLt() returns (r: Outcome)
      requires Ready() && (state == Guess(TagOpen) || state == Guess(EndTagOpen))
      modifies this`reconsume, this`state, this`pos, this`resume
      ensures Done(r, old(state), old(pos)) && r == Emit(Char(input[mark]))
      ensures state == Text(Data) && pos == mark + 1 && resume == old(pos) && buffered == NONE
    {
      ReconsumeIn(Text(Data));
      r := EmitFromMark();
    }

    // Behind a less-than sign the current character is consumed.
    method GoOnIn(s: State) returns (r: Outcome)
      requires Ready() && pos < |input|
      requires (state == Guess(TagOpen) && s == Guess(EndTagOpen)) || (state == Guess(EndTagOpen) && s == Text(Data))
      modifies this`state
      ensures Done(r, old(state), pos) && r == Continue && state == s
    {
      hide Codes;
      state := s;
      r := Continue;
    }

    method BeginDeclaration() returns (r: Outcome)
      requires Ready() && pos < |input| && state == Guess(TagOpen)
      modifies this`state, this`temporary
      ensures Done(r, old(state), pos) && r == Continue && state == Com(MarkupDeclaration) && temporary == []
    {
      hide Codes;
      state := Com(MarkupDeclaration);
      temporary := [];
      r := Continue;
    }

    // A letter starts a tag.
    method BeginTag(start: bool) returns (r: Outcome)
      requires Ready() && R.IsAlpha(Current()) && state == if start then Guess(TagOpen) else Guess(EndTagOpen)
      modifies this`reconsume, this`state, this`collecting, this`isStart, this`name
      ensures Done(r, old(state), old(pos)) && r == Continue
      ensures reconsume && state == InTag(TagName) && isStart == start && name == []
    {
      hide Codes;
      ReconsumeIn(InTag(TagName));
      StartNewTag(start);
      r := Continue;
    }

    // A comment that is none begins with the current character.
    method BeginBogus() returns (r: Outcome)
      requires Ready() && (state == Guess(TagOpen) || state == Guess(EndTagOpen))
      modifies this`reconsume, this`state, this`temporary
      ensures Done(r, old(state), old(pos)) && r == Continue
      ensures reconsume && state == Com(BogusComment) && temporary == []
    {
      hide Codes;
      ReconsumeIn(Com(BogusComment));
      temporary := [];
      r := Continue;
    }

    // handle_end_tag_open_state
    method HandleEndTagOpen(c: int) returns (r: Outcome)
      requires Ready() && state == Guess(EndTagOpen) && c == Current()
      modifies this
      ensures Done(r, old(state), old(pos))
      ensures Keeps(r, old(Coming(pos)))
    {
      hide Codes, Ahead, Suits, Falls, Rank, Settled, NeedsEmpty, IsReturn;
      InBounds();
      NotNegative();
      EndTagOpenAhead(input, Here(), pos);
      if c == '>' as int {
        r := GoOnIn(Text(Data));
      } else if c == R.EOF {
        r := GiveBackLt();
      } else if R.IsAlpha(c) {
        r := BeginTag(false);
      } else {
        r := BeginBogus();
      }
    }

    // handle_tag_name_state
    method HandleTagName(c: int) returns (r: Outcome)
      requires Ready() && state == InTag(TagName) && c == Current()
      modifies this
      ensures Done(r, old(state), old(pos))
      ensures Keeps(r, old(Coming(pos)))
    {
      hide Ahead;
      NotNegative();
      TagNameAhead(input, Here(), pos);
      if R.IsSpace(c) {
        state := InTag(BeforeAttrName);
      } else if c == '/' as int {
        state := InTag(SelfClosing);
      } else if c == '>' as int {
        state := Text(Data);
        r := EmitCurrentTag();
        return;
      } else if c == R.EOF {
        r := AbandonAtEof();
        return;
      } else {
        name := name + [if c == 0 then R.REPLACEMENT else R.LowerCode(c)];
      }
      return Continue;
    }

    // The less-than sign and end tag open states of RCDATA, RAWTEXT and script data.
    method HandleLt(c: int) returns (r: Outcome)
      requires Ready()
      requires (state == Guess(RcdataLt) || state == Guess(RawtextLt) || state == Guess(ScriptDataLt))
      requires c == Current()
      modifies this
      ensures Done(r, old(state), old(pos))
    {
      hide Codes;
      if c == '/' as int {
        state := Guess(EndTagOpenOf(state.g));
        return Continue;
      }
      if c == '!' as int && state == Guess(ScriptDataLt) {
        Next();
        ReconsumeIn(Text(EscapedStart));
      } else {
        ReconsumeIn(Text(TextOf(state.g)));
      }
      r := EmitFromMark();
    }

    // handle_script_data_escaped_lt_state
    method HandleEscapedLt(c: int) returns (r: Outcome)
      requires Ready() && state == Guess(EscapedLt) && c == Current()
      modifies this
      ensures Done(r, old(state), old(pos))
    {
      hide Codes;
      assert temporary == [];
      if c == '/' as int {
        state := Guess(EscapedEndTagOpen);
        return Continue;
      }
      ReconsumeIn(if R.IsAlpha(c) then Text(DoubleEscapedStart) else Text(Escaped));
      r := EmitFromMark();
    }

    method HandleRawEndTagOpen(c: int) returns (r: Outcome)
      requires Ready() && c == Current()
      requires state == Guess(RcdataEndTagOpen) || state == Guess(RawtextEndTagOpen)
               || state == Guess(ScriptDataEndTagOpen) || state == Guess(EscapedEndTagOpen)
      modifies this
      ensures Done(r, old(state), old(pos))
    {
      hide Codes;
      if R.IsAlpha(c) {
        r := BeginRawEndTag();
        return;
      }
      ReconsumeIn(Text(TextOf(state.g)));
      r := EmitFromMark();
    }

    method BeginRawEndTag() returns (r: Outcome)
      requires Ready() && R.IsAlpha(Current())
      requires state == Guess(RcdataEndTagOpen) || state == Guess(RawtextEndTagOpen)
               || state == Guess(ScriptDataEndTagOpen) || state == Guess(EscapedEndTagOpen)
      modifies this
      ensures Done(r, old(state), old(pos))
    {
      hide Codes;
      ReconsumeIn(Guess(EndTagNameOf(state.g)));
      StartNewTag(false);
      r := Continue;
    }

    // is_appropriate_end_tag
    predicate IsAppropriate()
      reads this`lastStartTag, this`name
    {
      lastStartTag != NONE && lastStartTag == tagOf(name)
    }

    // The four end tag name states of text.
    method HandleRawEndTagName(c: int) returns (r: Outcome)
      requires Ready() && c == Current()
      requires state == Guess(RcdataEndTagName) || state == Guess(RawtextEndTagName)
               || state == Guess(ScriptDataEndTagName) || state == Guess(EscapedEndTagName)
      modifies this
      ensures Done(r, old(state), old(pos))
    {
      hide Codes;
      if R.IsAlpha(c) {
        name := name + [R.LowerCode(c)];
        return Continue;
      }
      if R.IsDelimiter(c) && IsAppropriate() {
        r := CloseRawText(c);
        return;
      }
      collecting := false;
      ReconsumeIn(Text(TextOf(state.g)));
      r := EmitFromMark();
    }

    // An appropriate end tag has been found.
    method CloseRawText(c: int) returns (r: Outcome)
      requires Ready() && c == Current() && R.IsDelimiter(c) && state.Guess? && IsEndTagName(state.g)
      modifies this
      ensures Done(r, old(state), old(pos))
    {
      if c == '>' as int {
        state := Text(Data);
        r := EmitCurrentTag();
      } else {
        state := if c == '/' as int then InTag(SelfClosing) else InTag(BeforeAttrName);
        return Continue;
      }
    }

    // handle_script_data_escaped_start_state and the one after its dash.
    method HandleEscapedStart(c: int) returns (r: Outcome)
      requires Ready() && (state == Text(EscapedStart) || state == Text(EscapedStartDash)) && c == Current()
      modifies this
      ensures Done(r, old(state), old(pos))
    {
      hide Codes;
      if c == '-' as int {
        state := if state == Text(EscapedStart) then Text(EscapedStartDash) else Text(EscapedDashDash);
        r := EmitChar(c);
      } else {
        ReconsumeIn(Text(ScriptData));
        return Continue;
      }
    }

    // The three escaped states of script data.
    method HandleEscaped(c: int) returns (r: Outcome)
      requires Ready()
      requires (state == Text(Escaped) || state == Text(EscapedDash) || state == Text(EscapedDashDash))
      requires c == Current()
      modifies this
      ensures Done(r, old(state), old(pos))
    {
      if c == '-' as int {
        state := if state == Text(Escaped) then Text(EscapedDash) else Text(EscapedDashDash);
        r := EmitChar(c);
      } else if c == '<' as int {
        state := Guess(EscapedLt);
        temporary := [];
        mark := pos;
        return Continue;
      } else if c == '>' as int && state == Text(EscapedDashDash) {
        state := Text(ScriptData);
        r := EmitChar(c);
      } else if c == R.EOF {
        r := EmitChar(c);
      } else {
        state := Text(Escaped);
        r := EmitChar(if c == 0 then R.REPLACEMENT else c);
      }
    }

    // handle_script_data_double_escaped_start_state and its end state.
    method HandleDoubleEscapedWord(c: int) returns (r: Outcome)
      requires Ready() && (state == Text(DoubleEscapedStart) || state == Text(DoubleEscapedEnd)) && c == Current()
      modifies this
      ensures Done(r, old(state), old(pos))
    {
      hide Codes;
      if R.IsDelimiter(c) {
        state := if (temporary == R.SCRIPT) == (state == Text(DoubleEscapedStart)) then Text(DoubleEscaped)
          else Text(Escaped);
        r := EmitChar(c);
      } else if R.IsAlpha(c) {
        temporary := temporary + [R.LowerCode(c)];
        r := EmitChar(c);
      } else {
        ReconsumeIn(if state == Text(DoubleEscapedStart) then Text(Escaped) else Text(DoubleEscaped));
        return Continue;
      }
    }

    // The three double escaped states of script data.
    method HandleDoubleEscaped(c: int) returns (r: Outcome)
      requires Ready() && c == Current()
      requires state == Text(DoubleEscaped) || state == Text(DoubleEscapedDash) || state == Text(DoubleEscapedDashDash)
      modifies this
      ensures Done(r, old(state), old(pos))
    {
      if c == '-' as int {
        state := if state == Text(DoubleEscaped) then Text(DoubleEscapedDash) else Text(DoubleEscapedDashDash);
      } else if c == '<' as int {
        state := Text(DoubleEscapedLt);
      } else if c == '>' as int && state == Text(DoubleEscapedDashDash) {
        state := Text(ScriptData);
      } else if c != R.EOF {
        state := Text(DoubleEscaped);
      }
      r := EmitChar(if c == 0 then R.REPLACEMENT else c);
    }

    // handle_script_data_double_escaped_lt_state
    method HandleDoubleEscapedLt(c: int) returns (r: Outcome)
      requires Ready() && state == Text(DoubleEscapedLt) && c == Current()
      modifies this
      ensures Done(r, old(state), old(pos))
    {
      hide Codes;
      if c == '/' as int {
        state := Text(DoubleEscapedEnd);
        temporary := [];
        r := EmitChar(c);
      } else {
        ReconsumeIn(Text(DoubleEscaped));
        return Continue;
      }
    }

    // handle_before_attr_name_state
    method HandleBeforeAttrName(c: int) returns (r: Outcome)
      requires Ready() && state == InTag(BeforeAttrName) && c == Current()
      modifies this
      ensures Done(r, old(state), old(pos))
      ensures Keeps(r, old(Coming(pos)))
    {
      hide Codes, Ahead;
      NotNegative();
      AttrNameAhead(input, Here(), pos);
      if R.IsSpace(c) {
        return Continue;
      } else if EndsAttrName(c) {
        ReconsumeIn(InTag(AfterAttrName));
      } else if c == '=' as int {
        state := InTag(AttrName);
      } else {
        ReconsumeIn(InTag(AttrName));
      }
      return Continue;
    }

    // handle_attr_name_state
    method HandleAttrName(c: int) returns (r: Outcome)
      requires Ready() && state == InTag(AttrName) && c == Current()
      modifies this
      ensures Done(r, old(state), old(pos))
      ensures Keeps(r, old(Coming(pos)))
    {
      hide Codes, Ahead;
      NotNegative();
      AttrNameAhead(input, Here(), pos);
      if EndsAttrName(c) {
        ReconsumeIn(InTag(AfterAttrName));
      } else if c == '=' as int {
        state := InTag(BeforeAttrValue);
      }
      return Continue;
    }

    // handle_after_attr_name_state
    method HandleAfterAttrName(c: int) returns (r: Outcome)
      requires Ready() && state == InTag(AfterAttrName) && c == Current()
      modifies this
      ensures Done(r, old(state), old(pos))
      ensures Keeps(r, old(Coming(pos)))
    {
      hide Ahead;
      NotNegative();
      AttrNameAhead(input, Here(), pos);
      if R.IsSpace(c) {
        return Continue;
      } else if c == '/' as int {
        state := InTag(SelfClosing);
        return Continue;
      } else if c == '=' as int {
        state := InTag(BeforeAttrValue);
        return Continue;
      } else if c == '>' as int {
        state := Text(Data);
        r := EmitCurrentTag();
      } else if c == R.EOF {
        r := AbandonAtEof();
      } else {
        ReconsumeIn(InTag(AttrName));
        return Continue;
      }
    }

    // handle_before_attr_value_state
    method HandleBeforeAttrValue(c: int) returns (r: Outcome)
      requires Ready() && state == InTag(BeforeAttrValue) && c == Current()
      modifies this
      ensures Done(r, old(state), old(pos))
      ensures Keeps(r, old(Coming(pos)))
    {
      hide Codes, Ahead;
      NotNegative();
      BeforeAttrValueAhead(input, Here(), pos);
      if R.IsSpace(c) {
        return Continue;
      } else if c == '"' as int {
        state := InTag(DoubleQuoted);
        return Continue;
      } else if c == '\'' as int {
        state := InTag(SingleQuoted);
        return Continue;
      } else if c == '>' as int {
        state := Text(Data);
        r := EmitCurrentTag();
      } else {
        ReconsumeIn(InTag(Unquoted));
        return Continue;
      }
    }

    // The three states of attribute values.
    method HandleAttrValue(c: int) returns (r: Outcome)
      requires Ready() && IsAttrValue(state) && c == Current()
      modifies this
      ensures Done(r, old(state), old(pos))
      ensures Keeps(r, old(Coming(pos)))
    {
      hide Ahead;
      NotNegative();
      AttrValueAhead(input, Here(), pos);
      if c == '&' as int {
        returnState := state;
        state := Ref(CharRef);
        mark := pos;
      } else if c == R.EOF {
        r := AbandonAtEof();
        return;
      } else if state == InTag(Unquoted) {
        if R.IsSpace(c) {
          state := InTag(BeforeAttrName);
        } else if c == '>' as int {
          state := Text(Data);
          r := EmitCurrentTag();
          return;
        }
      } else if c == (if state == InTag(DoubleQuoted) then '"' else '\'') as int {
        state := InTag(AfterQuoted);
      }
      return Continue;
    }

    // handle_after_attr_value_quoted_state
    method HandleAfterQuoted(c: int) returns (r: Outcome)
      requires Ready() && state == InTag(AfterQuoted) && c == Current()
      modifies this
      ensures Done(r, old(state), old(pos))
      ensures Keeps(r, old(Coming(pos)))
    {
      hide Ahead;
      NotNegative();
      AfterValueAhead(input, Here(), pos);
      if R.IsSpace(c) {
        state := InTag(BeforeAttrName);
        return Continue;
      } else if c == '/' as int {
        state := InTag(SelfClosing);
        return Continue;
      } else if c == '>' as int {
        state := Text(Data);
        r := EmitCurrentTag();
      } else if c == R.EOF {
        r := AbandonAtEof();
      } else {
        ReconsumeIn(InTag(BeforeAttrName));
        return Continue;
      }
    }

    // handle_self_closing_start_tag_state
    method HandleSelfClosing(c: int) returns (r: Outcome)
      requires Ready() && state == InTag(SelfClosing) && c == Current()
      modifies this
      ensures Done(r, old(state), old(pos))
      ensures Keeps(r, old(Coming(pos)))
    {
      hide Ahead;
      NotNegative();
      AfterValueAhead(input, Here(), pos);
      if c == '>' as int {
        state := Text(Data);
        r := EmitCurrentTag();
      } else if c == R.EOF {
        r := AbandonAtEof();
      } else {
        ReconsumeIn(InTag(BeforeAttrName));
        return Continue;
      }
    }

    // handle_bogus_comment_state
    method HandleBogusComment(c: int) returns (r: Outcome)
      requires Ready() && state == Com(BogusComment) && c == Current()
      modifies this
      ensures Done(r, old(state), old(pos))
      ensures Keeps(r, old(Coming(pos)))
    {
      hide Codes, Ahead, Suits, Falls, Rank, Settled, NeedsEmpty, IsReturn;
      InBounds();
      NotNegative();
      BogusAhead(input, Here(), pos);
      if c == '>' as int {
        r := CloseComment();
      } else if c == R.EOF {
        r := CloseCommentAtEof();
      } else {
        r := KeepInComment(state, [if c == 0 then R.REPLACEMENT else c]);
      }
    }

    // handle_markup_declaration_open_state
    method HandleMarkupDeclaration() returns (r: Outcome)
      requires Ready() && state == Com(MarkupDeclaration)
      modifies this
      ensures Done(r, old(state), old(pos))
      ensures Keeps(r, old(Coming(pos)))
    {
      hide Codes, Ahead, CodesOf, Stands, WordAt, Matches, Suits, Falls, Rank, Settled, IsReturn;
      InBounds();
      DeclarationAhead(input, Here(), pos);
      WordMatches(input, pos);
      var matched := ConsumeMatch("--", true);
      if matched {
        r := Declare(Com(CommentStart), [], old(pos));
        return;
      }
      matched := ConsumeMatch("DOCTYPE", false);
      if matched {
        r := Declare(Doc(Doctype), [], old(pos));
        return;
      }
      r := OpenCdata();
    }

    // The declaration is of this kind; the word that says so began at p.
    method Declare(s: State, text: seq<int>, ghost p: nat) returns (r: Outcome)
      requires state == Com(MarkupDeclaration) && InvAt(p) && p <= pos <= |input|
      requires !reconsume && resume == NONE && buffered == NONE
      requires s == Com(BogusComment) || (p < pos && text == [] && (s == Com(CommentStart) || s == Doc(Doctype)))
               || (p < pos && s == Cdata(CdataSection))
      modifies this`state, this`reconsume, this`temporary
      ensures Done(r, old(state), p) && r == Continue && reconsume && state == s && temporary == text
    {
      hide Codes;
      temporary := text;
      ReconsumeIn(s);
      r := Continue;
    }

    // A CDATA section, which is a comment outside of foreign content.
    method OpenCdata() returns (r: Outcome)
      requires Ready() && state == Com(MarkupDeclaration)
      requires !Matches(input, pos, CodesOf("--"), true) && !Matches(input, pos, CodesOf("DOCTYPE"), false)
      modifies this
      ensures Done(r, old(state), old(pos))
      ensures Keeps(r, old(Coming(pos)))
    {
      hide Codes, Ahead, CodesOf, Stands, WordAt, Matches, Suits, Falls, Rank, Settled, IsReturn;
      InBounds();
      DeclarationAhead(input, Here(), pos);
      WordMatches(input, pos);
      var matched := ConsumeMatch("[CDATA[", true);
      if matched && foreign {
        r := Declare(Cdata(CdataSection), [], old(pos));
      } else {
        r := Declare(Com(BogusComment), if matched then CodesOf("[CDATA[") else [], old(pos));
      }
    }

    // handle_comment_start_state
    method HandleCommentStart(c: int) returns (r: Outcome)
      requires Ready() && state == Com(CommentStart) && c == Current()
      modifies this
      ensures Done(r, old(state), old(pos))
      ensures Keeps(r, old(Coming(pos)))
    {
      hide Codes, Ahead;
      CommentStartAhead(input, Here(), pos);
      if c == '-' as int {
        state := Com(CommentStartDash);
        return Continue;
      } else if c == '>' as int {
        state := Text(Data);
        r := EmitComment();
      } else {
        ReconsumeIn(Com(Comment));
        return Continue;
      }
    }

    // handle_comment_start_dash_state
    method HandleCommentStartDash(c: int) returns (r: Outcome)
      requires Ready() && state == Com(CommentStartDash) && c == Current()
      modifies this
      ensures Done(r, old(state), old(pos))
      ensures Keeps(r, old(Coming(pos)))
    {
      hide Codes, Ahead;
      NotNegative();
      CommentStartDashAhead(input, Here(), pos);
      if c == '-' as int {
        state := Com(CommentEnd);
        return Continue;
      } else if c == '>' as int {
        state := Text(Data);
        r := EmitComment();
      } else if c == R.EOF {
        ReconsumeIn(Text(Data));
        r := EmitComment();
      } else {
        ReconsumeIn(Com(Comment));
        temporary := temporary + ['-' as int];
        return Continue;
      }
    }

    // handle_comment_state
    method HandleComment(c: int) returns (r: Outcome)
      requires Ready() && state == Com(Comment) && c == Current()
      modifies this
      ensures Done(r, old(state), old(pos))
      ensures Keeps(r, old(Coming(pos)))
    {
      hide Codes, Ahead, Suits, Falls, Rank, Settled, NeedsEmpty, IsReturn;
      InBounds();
      NotNegative();
      CommentStateAhead(input, Here(), pos);
      assert temporary + [] == temporary;
      if c == '-' as int {
        r := KeepInComment(Com(CommentEndDash), []);
      } else if c == R.EOF {
        r := CloseCommentAtEof();
      } else {
        r := KeepInComment(if c == '<' as int then Com(CommentLt) else Com(Comment),
          [if c == 0 then R.REPLACEMENT else c]);
      }
    }

    // The current character is consumed, and kept or not.
    method KeepInComment(s: State, kept: seq<int>) returns (r: Outcome)
      requires Ready() && pos < |input|
      requires (state == Com(Comment) && (s == Com(Comment) || s == Com(CommentLt) || s == Com(CommentEndDash)))
               || (state == Com(BogusComment) && s == state)
      modifies this`state, this`temporary
      ensures Done(r, old(state), pos) && r == Continue && state == s && temporary == old(temporary) + kept
    {
      hide Codes;
      state := s;
      temporary := temporary + kept;
      r := Continue;
    }

    // The end of the input ends the comment and is handed on.
    method CloseCommentAtEof() returns (r: Outcome)
      requires Ready() && pos == |input| && (state == Com(Comment) || state == Com(BogusComment))
      modifies this
      ensures Done(r, old(state), old(pos)) && r == Emit(CommentToken(old(temporary))) && pos == old(pos) && Resting()
    {
      hide Codes;
      ReconsumeIn(Text(Data));
      r := EmitComment();
    }

    // handle_comment_lt_state
    method HandleCommentLt(c: int) returns (r: Outcome)
      requires Ready() && state == Com(CommentLt) && c == Current()
      modifies this
      ensures Done(r, old(state), old(pos))
      ensures Keeps(r, old(Coming(pos)))
    {
      hide Codes, Ahead;
      CommentLtAhead(input, Here(), pos);
      if c == '!' as int || c == '<' as int {
        state := if c == '!' as int then Com(CommentLtBang) else Com(CommentLt);
        temporary := temporary + [c];
      } else {
        ReconsumeIn(Com(Comment));
      }
      return Continue;
    }

    // handle_comment_lt_bang_state
    method HandleCommentLtBang(c: int) returns (r: Outcome)
      requires Ready() && state == Com(CommentLtBang) && c == Current()
      modifies this
      ensures Done(r, old(state), old(pos))
      ensures Keeps(r, old(Coming(pos)))
    {
      hide Codes, Ahead;
      CommentLtBangAhead(input, Here(), pos);
      if c == '-' as int {
        state := Com(CommentLtBangDash);
      } else {
        ReconsumeIn(Com(Comment));
      }
      return Continue;
    }

    // handle_comment_lt_bang_dash_state
    method HandleCommentLtBangDash(c: int) returns (r: Outcome)
      requires Ready() && state == Com(CommentLtBangDash) && c == Current()
      modifies this
      ensures Done(r, old(state), old(pos))
      ensures Keeps(r, old(Coming(pos)))
    {
      hide Codes, Ahead;
      CommentLtBangDashAhead(input, Here(), pos);
      if c == '-' as int {
        state := Com(CommentLtBangDashDash);
      } else {
        ReconsumeIn(Com(CommentEndDash));
      }
      return Continue;
    }

    // handle_comment_lt_bang_dash_dash_state
    method HandleCommentLtBangDashDash(c: int) returns (r: Outcome)
      requires Ready() && state == Com(CommentLtBangDashDash) && c == Current()
      modifies this
      ensures Done(r, old(state), old(pos))
      ensures Keeps(r, old(Coming(pos)))
    {
      hide Codes, Ahead;
      CommentLtBangDashDashAhead(input, Here(), pos);
      ReconsumeIn(Com(CommentEnd));
      return Continue;
    }

    // The comment ends with the current character, or at the end of the input.
    method CloseComment() returns (r: Outcome)
      requires Ready() && state.Com? && state.m in {BogusComment, CommentEndDash, CommentEnd, CommentEndBang}
      requires state == Com(BogusComment) ==> pos < |input|
      modifies this
      ensures Done(r, old(state), old(pos))
      ensures r == Emit(CommentToken(old(temporary))) && pos == if old(pos) < |input| then old(pos) + 1 else old(pos)
      ensures Resting()
    {
      hide Codes;
      state := Text(Data);
      r := EmitComment();
    }

    // What looked like the end belongs to the comment.
    method BackToComment(text: string) returns (r: Outcome)
      requires Ready() && state.Com? && state.m in {CommentEndDash, CommentEnd, CommentEndBang}
      modifies this`state, this`reconsume, this`temporary
      ensures Done(r, old(state), old(pos))
      ensures r == Continue && reconsume && state == Com(Comment) && temporary == old(temporary) + CodesOf(text)
    {
      hide Codes;
      ReconsumeIn(Com(Comment));
      temporary := temporary + CodesOf(text);
      r := Continue;
    }

    // handle_comment_end_dash_state
    method HandleCommentEndDash(c: int) returns (r: Outcome)
      requires Ready() && state == Com(CommentEndDash) && c == Current()
      modifies this
      ensures Done(r, old(state), old(pos))
      ensures Keeps(r, old(Coming(pos)))
    {
      hide Codes, Ahead;
      NotNegative();
      CommentEndDashAhead(input, Here(), pos);
      if c == R.EOF {
        r := CloseComment();
      } else if c == '-' as int {
        state := Com(CommentEnd);
        r := Continue;
      } else {
        r := BackToComment("-");
      }
    }

    // handle_comment_end_state
    method HandleCommentEnd(c: int) returns (r: Outcome)
      requires Ready() && state == Com(CommentEnd) && c == Current()
      modifies this
      ensures Done(r, old(state), old(pos))
      ensures Keeps(r, old(Coming(pos)))
    {
      hide Codes, Ahead;
      NotNegative();
      CommentEndAhead(input, Here(), pos);
      if c == R.EOF || c == '>' as int {
        r := CloseComment();
      } else if c == '!' as int {
        state := Com(CommentEndBang);
        r := Continue;
      } else if c == '-' as int {
        temporary := temporary + ['-' as int];
        r := Continue;
      } else {
        r := BackToComment("--");
      }
    }

    // handle_comment_end_bang_state
    method HandleCommentEndBang(c: int) returns (r: Outcome)
      requires Ready() && state == Com(CommentEndBang) && c == Current()
      modifies this
      ensures Done(r, old(state), old(pos))
      ensures Keeps(r, old(Coming(pos)))
    {
      hide Codes, Ahead;
      NotNegative();
      CommentEndBangAhead(input, Here(), pos);
      if c == R.EOF || c == '>' as int {
        r := CloseComment();
      } else if c == '-' as int {
        state := Com(CommentEndDash);
        temporary := temporary + CodesOf("--!");
        r := Continue;
      } else {
        r := BackToComment("--!");
      }
    }

    // A doctype ends with the current character, or before the end of the input.
    method EndDoctype(c: int) returns (r: Outcome)
      requires Codes() && c == Current() && (c == '>' as int || c == R.EOF)
      requires state.Doc? && Rank(state, c) > 0 && !collecting && pos <= |input|
      requires IsReturn(returnState) && code <= C.MAX_CHAR + 1 && !reconsume && resume == NONE && buffered == NONE
      modifies this`state, this`reconsume, this`pos
      ensures Done(r, old(state), old(pos))
      ensures r == Emit(DoctypeToken) && pos == Behind(input, Closer(input, old(pos))) && Resting()
    {
      hide Ahead, Closer;
      DoctypeCloser(pos, pos);
      if c == '>' as int {
        state := Text(Data);
      } else {
        ReconsumeIn(Text(Data));
      }
      r := EmitToken(DoctypeToken);
    }

    // In any doctype state the same token is coming.
    lemma DoctypeComing(q: nat)
      requires q <= |input| && state.Doc?
      ensures Coming(q) == Reads(DoctypeToken, Behind(input, Closer(input, q)))
    {
      DoctypeAhead(input, Here(), q);
    }

    lemma DoctypeCloser(q: nat, r: nat)
      requires q <= r <= |input| && forall i :: q <= i < r ==> input[i] != '>' as int
      ensures Closer(input, q) == Closer(input, r)
      ensures q == |input| || input[q] == '>' as int ==> Closer(input, q) == q
    {
      CloserFrom(input, q, r);
    }

    // The current character is consumed inside of a doctype.
    method GoOnDoctype(s: State) returns (r: Outcome)
      requires state.Doc? && s.Doc? && !collecting && pos < |input| && input[pos] != '>' as int
      requires IsReturn(returnState) && code <= C.MAX_CHAR + 1 && (NeedsEmpty(s) ==> temporary == [])
      requires !reconsume && resume == NONE && buffered == NONE
      modifies this`state
      ensures Done(r, old(state), pos) && r == Continue
      ensures Coming(pos + 1) == Reads(DoctypeToken, Behind(input, Closer(input, pos)))
    {
      hide Ahead, Closer, Codes;
      state := s;
      DoctypeComing(pos + 1);
      DoctypeCloser(pos, pos + 1);
      r := Continue;
    }

    // It is handed on inside of the doctype, perhaps after a keyword.
    method HandOnDoctype(s: State, ghost s0: State, ghost p: nat) returns (r: Outcome)
      requires s0.Doc? && s.Doc? && !collecting && p <= pos <= |input|
      requires forall i :: p <= i < pos ==> input[i] != '>' as int
      requires p == pos ==> Rank(s, At(input, pos)) < Rank(s0, At(input, pos))
      requires IsReturn(returnState) && code <= C.MAX_CHAR + 1 && (NeedsEmpty(s) ==> temporary == [])
      requires !reconsume && resume == NONE && buffered == NONE
      modifies this`state, this`reconsume
      ensures Done(r, s0, p) && r == Continue && reconsume
      ensures Coming(pos) == Reads(DoctypeToken, Behind(input, Closer(input, p)))
    {
      hide Ahead, Closer, Codes;
      ReconsumeIn(s);
      DoctypeComing(pos);
      DoctypeCloser(p, pos);
      r := Continue;
    }

    // handle_doctype_state
    method HandleDoctype(c: int) returns (r: Outcome)
      requires Ready() && state == Doc(Doctype) && c == Current()
      modifies this
      ensures Done(r, old(state), old(pos))
      ensures Keeps(r, old(Coming(pos)))
    {
      hide Codes, Ahead, Closer;
      NotNegative();
      DoctypeComing(pos);
      assert temporary == [];
      if c == R.EOF {
        r := EndDoctype(c);
      } else if R.IsSpace(c) {
        r := GoOnDoctype(Doc(BeforeDoctypeName));
      } else {
        r := HandOnDoctype(Doc(BeforeDoctypeName), state, pos);
      }
    }

    // handle_before_doctype_name_state
    method HandleBeforeDoctypeName(c: int) returns (r: Outcome)
      requires Ready() && state == Doc(BeforeDoctypeName) && c == Current()
      modifies this
      ensures Done(r, old(state), old(pos))
      ensures Keeps(r, old(Coming(pos)))
    {
      hide Codes, Ahead, Closer;
      NotNegative();
      DoctypeComing(pos);
      if c == R.EOF || c == '>' as int {
        r := EndDoctype(c);
      } else if R.IsSpace(c) {
        r := GoOnDoctype(state);
      } else {
        temporary := temporary + [if c == 0 then R.REPLACEMENT else R.LowerCode(c)];
        r := GoOnDoctype(Doc(DoctypeName));
      }
    }

    // handle_doctype_name_state
    method HandleDoctypeName(c: int) returns (r: Outcome)
      requires Ready() && state == Doc(DoctypeName) && c == Current()
      modifies this
      ensures Done(r, old(state), old(pos))
      ensures Keeps(r, old(Coming(pos)))
    {
      hide Codes, Ahead, Closer;
      NotNegative();
      DoctypeComing(pos);
      if c == R.EOF || c == '>' as int {
        temporary := [];
        r := EndDoctype(c);
      } else if R.IsSpace(c) {
        temporary := [];
        r := GoOnDoctype(Doc(AfterDoctypeName));
      } else {
        temporary := temporary + [if c == 0 then R.REPLACEMENT else R.LowerCode(c)];
        r := GoOnDoctype(state);
      }
    }

    // handle_after_doctype_name_state
    method HandleAfterDoctypeName(c: int) returns (r: Outcome)
      requires Ready() && state == Doc(AfterDoctypeName) && c == Current()
      modifies this
      ensures Done(r, old(state), old(pos))
      ensures Keeps(r, old(Coming(pos)))
    {
      hide Codes, Ahead, Closer;
      NotNegative();
      DoctypeComing(pos);
      if c == R.EOF || c == '>' as int {
        r := EndDoctype(c);
        return;
      }
      if R.IsSpace(c) {
        r := GoOnDoctype(state);
        return;
      }
      KeywordsPlain(pos);
      var matched := ConsumeMatch("PUBLIC", false);
      if matched {
        r := HandOnDoctype(Doc(AfterPublicKeyword), state, old(pos));
        return;
      }
      matched := ConsumeMatch("SYSTEM", false);
      r := HandOnDoctype(if matched then Doc(AfterSystemKeyword) else Doc(BogusDoctype), state, old(pos));
    }

    // The keywords have no greater-than sign.
    lemma KeywordsPlain(q: nat)
      requires q <= |input|
      ensures Matches(input, q, CodesOf("PUBLIC"), false) ==>
                q + 6 <= |input| && forall i :: q <= i < q + 6 ==> input[i] != '>' as int
      ensures Matches(input, q, CodesOf("SYSTEM"), false) ==>
                q + 6 <= |input| && forall i :: q <= i < q + 6 ==> input[i] != '>' as int
    {
      if Matches(input, q, CodesOf("PUBLIC"), false) { WordPlain(input, q, "PUBLIC"); }
      if Matches(input, q, CodesOf("SYSTEM"), false) { WordPlain(input, q, "SYSTEM"); }
    }

    // The states before and between the identifiers of a doctype.
    method HandleBeforeId(c: int) returns (r: Outcome)
      requires Ready() && c == Current()
      requires state == Doc(AfterPublicKeyword) || state == Doc(BeforePublicId) || state == Doc(AfterPublicId)
               || state == Doc(BetweenIds)
               || state == Doc(AfterSystemKeyword) || state == Doc(BeforeSystemId) || state == Doc(AfterSystemId)
      modifies this
      ensures Done(r, old(state), old(pos))
      ensures Keeps(r, old(Coming(pos)))
    {
      hide Codes, Ahead, Closer;
      NotNegative();
      DoctypeComing(pos);
      if c == R.EOF || c == '>' as int {
        r := EndDoctype(c);
      } else if R.IsSpace(c) {
        r := GoOnDoctype(
          if state == Doc(AfterPublicKeyword) then Doc(BeforePublicId)
          else if state == Doc(AfterPublicId) then Doc(BetweenIds)
          else if state == Doc(AfterSystemKeyword) then Doc(BeforeSystemId)
          else state);
      } else if (c == '"' as int || c == '\'' as int) && state != Doc(AfterSystemId) {
        assert temporary == [];
        r := GoOnDoctype(
          if state == Doc(AfterPublicKeyword) || state == Doc(BeforePublicId)
          then (if c == '"' as int then Doc(PublicDoubleQuoted) else Doc(PublicSingleQuoted))
          else if c == '"' as int then Doc(SystemDoubleQuoted) else Doc(SystemSingleQuoted));
      } else {
        r := HandOnDoctype(Doc(BogusDoctype), state, pos);
      }
    }

    // The states of quoted identifiers.
    method HandleId(c: int) returns (r: Outcome)
      requires Ready() && c == Current()
      requires state == Doc(PublicDoubleQuoted) || state == Doc(PublicSingleQuoted)
               || state == Doc(SystemDoubleQuoted) || state == Doc(SystemSingleQuoted)
      modifies this
      ensures Done(r, old(state), old(pos))
      ensures Keeps(r, old(Coming(pos)))
    {
      hide Codes, Ahead, Closer;
      NotNegative();
      DoctypeComing(pos);
      var double := state == Doc(PublicDoubleQuoted) || state == Doc(SystemDoubleQuoted);
      if c == R.EOF || c == '>' as int {
        temporary := [];
        r := EndDoctype(c);
      } else if c == (if double then '"' else '\'') as int {
        temporary := [];
        r := GoOnDoctype(if state == Doc(PublicDoubleQuoted) || state == Doc(PublicSingleQuoted) then Doc(AfterPublicId)
                         else Doc(AfterSystemId));
      } else {
        temporary := temporary + [if c == 0 then R.REPLACEMENT else c];
        r := GoOnDoctype(state);
      }
    }

    // handle_bogus_doctype_state
    method HandleBogusDoctype(c: int) returns (r: Outcome)
      requires Ready() && state == Doc(BogusDoctype) && c == Current()
      modifies this
      ensures Done(r, old(state), old(pos))
      ensures Keeps(r, old(Coming(pos)))
    {
      hide Codes, Ahead, Closer;
      NotNegative();
      DoctypeComing(pos);
      if c == R.EOF || c == '>' as int {
        r := EndDoctype(c);
      } else {
        r := GoOnDoctype(state);
      }
    }

    // The three states of a CDATA section.
    method HandleCdata(c: int) returns (r: Outcome)
      requires Ready()
      requires (state == Cdata(CdataSection) || state == Cdata(CdataBracket) || state == Cdata(CdataEnd))
      requires c == Current()
      modifies this
      ensures Done(r, old(state), old(pos))
    {
      if state == Cdata(CdataSection) {
        if c == ']' as int {
          state := Cdata(CdataBracket);
          mark := pos;
          return Continue;
        }
        r := EmitChar(c);
      } else if state == Cdata(CdataBracket) && c == ']' as int {
        state := Cdata(CdataEnd);
        return Continue;
      } else if state == Cdata(CdataEnd) && c == ']' as int {
        // The first of three brackets is emitted, the other two are read again.
        r := EmitFromMark();
        resume := NONE;
        mark := pos;
        state := Cdata(CdataSection);
      } else if state == Cdata(CdataEnd) && c == '>' as int {
        Next();
        ReconsumeIn(Text(Data));
        return Continue;
      } else {
        ReconsumeIn(Cdata(CdataSection));
        r := EmitFromMark();
      }
    }

    // flush_code_points_consumed_as_character_reference
    method FlushReference() returns (r: Outcome)
      requires Codes() && reconsume && resume == NONE && mark < pos <= |input|
      modifies this`pos, this`resume, this`reconsume
      ensures if IsAttrValue(returnState) then r == Continue && pos == old(pos) && resume == NONE && reconsume
              else r == Emit(Char(input[mark])) && resume == old(pos) && pos == mark + 1 && !reconsume
    {
      if IsAttrValue(returnState) {
        return Continue;
      }
      r := EmitFromMark();
    }

    // flush_char_ref
    method FlushCharRef(first: int, second: int) returns (r: Outcome)
      requires reconsume && buffered == NONE && first >= 0
      modifies this`pos, this`buffered
      ensures pos == old(pos)
      ensures if IsAttrValue(returnState) then r == Continue && buffered == NONE
              else r == Emit(Char(first)) && buffered == second
    {
      if IsAttrValue(returnState) {
        return Continue;
      }
      buffered := second;
      r := EmitChar(first);
    }

    // handle_character_reference_state
    method HandleCharRef(c: int) returns (r: Outcome)
      requires Ready() && state == Ref(CharRef) && c == Current()
      modifies this
      ensures Done(r, old(state), old(pos))
    {
      hide Codes;
      if C.IsAlnum(c) {
        ReconsumeIn(Ref(NamedCharRef));
        return Continue;
      }
      if c == '#' as int {
        state := Ref(NumericCharRef);
        return Continue;
      }
      ReconsumeIn(returnState);
      r := FlushReference();
    }

    lemma NamedBounds()
      requires Codes() && 0 <= pos <= |input|
      ensures var m := named(input[pos..]);
              m.size <= |input| - pos && (m.size > 0 ==> m.first >= 0 && (m.second == NONE || m.second >= 0))
    {
    }

    // handle_named_character_reference_state
    method HandleNamedCharRef() returns (r: Outcome)
      requires Ready() && state == Ref(NamedCharRef)
      modifies this
      ensures Done(r, old(state), old(pos))
    {
      hide Codes;
      var m := named(input[pos..]);
      NamedBounds();
      if m.size == 0 {
        ReconsumeIn(Ref(AmbiguousAmpersand));
        r := FlushReference();
        return;
      }
      var last := input[pos + m.size - 1];
      var matched := input[pos..pos + m.size];
      pos := pos + m.size;
      ReconsumeIn(returnState);
      if IsAttrValue(returnState) && last != ';' as int && (Current() == '=' as int || C.IsAlnum(Current())) {
        temporary := temporary + matched;
        r := FlushReference();
      } else {
        r := FlushCharRef(m.first, m.second);
      }
    }

    // handle_ambiguous_ampersand_state
    method HandleAmbiguousAmpersand(c: int) returns (r: Outcome)
      requires Ready() && state == Ref(AmbiguousAmpersand) && c == Current()
      modifies this
      ensures Done(r, old(state), old(pos))
    {
      if C.IsAlnum(c) {
        if IsAttrValue(returnState) {
          return Continue;
        }
        r := EmitChar(c);
        return;
      }
      ReconsumeIn(returnState);
      return Continue;
    }

    // handle_numeric_character_reference_state
    method HandleNumericCharRef(c: int) returns (r: Outcome)
      requires Ready() && state == Ref(NumericCharRef) && c == Current()
      modifies this
      ensures Done(r, old(state), old(pos))
    {
      hide Codes;
      code := 0;
      if c == 'x' as int || c == 'X' as int {
        state := Ref(HexStart);
      } else {
        ReconsumeIn(Ref(DecimalStart));
      }
      return Continue;
    }

    // The start states of numeric character references.
    method HandleNumericStart(c: int) returns (r: Outcome)
      requires Ready() && (state == Ref(HexStart) || state == Ref(DecimalStart)) && c == Current()
      modifies this
      ensures Done(r, old(state), old(pos))
    {
      hide Codes;
      var hex := state == Ref(HexStart);
      if C.IsBaseDigit(c, hex) {
        ReconsumeIn(if hex then Ref(Hex) else Ref(Decimal));
        return Continue;
      }
      ReconsumeIn(returnState);
      r := FlushReference();
    }

    method HandleDigits(c: int) returns (r: Outcome)
      requires Ready() && (state == Ref(Hex) || state == Ref(Decimal)) && c == Current()
      modifies this
      ensures Done(r, old(state), old(pos))
    {
      hide Codes;
      if C.IsBaseDigit(c, state == Ref(Hex)) {
        code := C.Accumulate(code, c, state == Ref(Hex));
      } else if c == ';' as int {
        state := Ref(NumericEnd);
      } else {
        ReconsumeIn(Ref(NumericEnd));
      }
      return Continue;
    }

    // handle_numeric_character_reference_end_state
    method HandleNumericEnd() returns (r: Outcome)
      requires Ready() && state == Ref(NumericEnd)
      modifies this
      ensures Done(r, old(state), old(pos))
    {
      ReconsumeIn(returnState);
      r := FlushCharRef(C.Final(code), NONE);
    }

    // dispatch_table
    method Dispatch(c: int) returns (r: Outcome)
      requires Ready() && c == Current()
      modifies this
      ensures Done(r, old(state), old(pos))
      ensures Keeps(r, old(Coming(pos)))
    {
      hide Codes, InvAt, Falls, Rank;
      match state
      case Text(Data) => r := HandleData(c);
      case Text(Rcdata) => r := HandleRcdata(c);
      case Text(Rawtext) | Text(ScriptData) | Text(Plaintext) => r := HandleRawtext(c);
      case Guess(TagOpen) => r := HandleTagOpen(c);
      case Guess(EndTagOpen) => r := HandleEndTagOpen(c);
      case InTag(TagName) => r := HandleTagName(c);
      case Guess(RcdataLt) | Guess(RawtextLt) | Guess(ScriptDataLt) => r := HandleLt(c);
      case Guess(RcdataEndTagOpen) | Guess(RawtextEndTagOpen) | Guess(ScriptDataEndTagOpen)
        | Guess(EscapedEndTagOpen) => r := HandleRawEndTagOpen(c);
      case Guess(RcdataEndTagName) | Guess(RawtextEndTagName) | Guess(ScriptDataEndTagName)
        | Guess(EscapedEndTagName) => r := HandleRawEndTagName(c);
      case Text(EscapedStart) | Text(EscapedStartDash) => r := HandleEscapedStart(c);
      case Text(Escaped) | Text(EscapedDash) | Text(EscapedDashDash) => r := HandleEscaped(c);
      case Guess(EscapedLt) => r := HandleEscapedLt(c);
      case Text(DoubleEscapedStart) | Text(DoubleEscapedEnd) => r := HandleDoubleEscapedWord(c);
      case Text(DoubleEscaped) | Text(DoubleEscapedDash) | Text(DoubleEscapedDashDash) => r := HandleDoubleEscaped(c);
      case Text(DoubleEscapedLt) => r := HandleDoubleEscapedLt(c);
      case InTag(BeforeAttrName) => r := HandleBeforeAttrName(c);
      case InTag(AttrName) => r := HandleAttrName(c);
      case InTag(AfterAttrName) => r := HandleAfterAttrName(c);
      case InTag(BeforeAttrValue) => r := HandleBeforeAttrValue(c);
      case InTag(DoubleQuoted) | InTag(SingleQuoted) | InTag(Unquoted) => r := HandleAttrValue(c);
      case InTag(AfterQuoted) => r := HandleAfterQuoted(c);
      case InTag(SelfClosing) => r := HandleSelfClosing(c);
      case Com(BogusComment) => r := HandleBogusComment(c);
      case Com(MarkupDeclaration) => r := HandleMarkupDeclaration();
      case Com(CommentStart) => r := HandleCommentStart(c);
      case Com(CommentStartDash) => r := HandleCommentStartDash(c);
      case Com(Comment) => r := HandleComment(c);
      case Com(CommentLt) => r := HandleCommentLt(c);
      case Com(CommentLtBang) => r := HandleCommentLtBang(c);
      case Com(CommentLtBangDash) => r := HandleCommentLtBangDash(c);
      case Com(CommentLtBangDashDash) => r := HandleCommentLtBangDashDash(c);
      case Com(CommentEndDash) => r := HandleCommentEndDash(c);
      case Com(CommentEnd) => r := HandleCommentEnd(c);
      case Com(CommentEndBang) => r := HandleCommentEndBang(c);
      case Doc(Doctype) => r := HandleDoctype(c);
      case Doc(BeforeDoctypeName) => r := HandleBeforeDoctypeName(c);
      case Doc(DoctypeName) => r := HandleDoctypeName(c);
      case Doc(AfterDoctypeName) => r := HandleAfterDoctypeName(c);
      case Doc(AfterPublicKeyword) | Doc(BeforePublicId) | Doc(AfterPublicId) | Doc(BetweenIds)
        | Doc(AfterSystemKeyword) | Doc(BeforeSystemId) | Doc(AfterSystemId) => r := HandleBeforeId(c);
      case Doc(PublicDoubleQuoted) | Doc(PublicSingleQuoted) | Doc(SystemDoubleQuoted)
        | Doc(SystemSingleQuoted) => r := HandleId(c);
      case Doc(BogusDoctype) => r := HandleBogusDoctype(c);
      case Cdata(CdataSection) | Cdata(CdataBracket) | Cdata(CdataEnd) => r := HandleCdata(c);
      case Ref(CharRef) => r := HandleCharRef(c);
      case Ref(NamedCharRef) => r := HandleNamedCharRef();
      case Ref(AmbiguousAmpersand) => r := HandleAmbiguousAmpersand(c);
      case Ref(NumericCharRef) => r := HandleNumericCharRef(c);
      case Ref(HexStart) | Ref(DecimalStart) => r := HandleNumericStart(c);
      case Ref(Hex) | Ref(Decimal) => r := HandleDigits(c);
      case Ref(NumericEnd) => r := HandleNumericEnd();
    }

    ghost function Now(): (m: Measure)
      reads this
      requires buffered >= NONE && (resume >= 0 ==> pos <= resume)
    {
      Measure(|input| - Settled(state, Frontier()), Rank(state, At(input, Frontier())),
        if buffered == NONE then 0 else 1, if resume >= 0 then resume - pos + 1 else 0)
    }

    // One turn of the loop of gumbo_lex.
    method Turn() returns (r: Outcome)
      requires Ready() && pos <= |input|
      modifies this
      ensures match r
              case Emit(t) =>
                && (t == Eof ==> pos == |input|) && (t != Eof ==> Valid() && Below(Now(), old(Now())))
                && (t.Tag? ==> state == Text(Data) && resume == NONE && buffered == NONE)
                && (old(Coming(pos)).Reads? ==> old(Coming(pos)) == Reads(t, pos) && (t != Eof ==> Resting()))
              case Continue =>
                && Ready() && pos <= |input| && Below(Now(), old(Now()))
                && (old(Coming(pos)).Reads? ==> Coming(pos) == old(Coming(pos)))
    {
      hide Suits, Rank, Settled, NeedsEmpty, IsReturn, Ahead, Codes;
      SettledBounds(state, returnState, pos, mark, collecting, |input|);
      r := Dispatch(Current());
      var advance := !reconsume;
      reconsume := false;
      if r.Emit? {
        return;
      }
      if advance {
        Next();
      }
      SettledBounds(state, returnState, pos, mark, collecting, |input|);
    }

    // gumbo_lex always returns a token: the end of the input when all of it has been
    // read, or one after which less remains to be done. With nothing held back it is
    // the token that was coming.
    method Lex() returns (t: Token)
      requires Valid()
      modifies this
      ensures t == Eof ==> pos == |input|
      ensures t != Eof ==> Valid() && Below(Now(), old(Now()))
      ensures t.Tag? ==> state == Text(Data) && resume == NONE && buffered == NONE
      ensures old(buffered) != NONE ==> t == Char(old(buffered)) && pos == old(pos)
      ensures old(buffered) == NONE && old(pos) < old(resume) ==>
                t == Char(input[old(pos)]) && pos == old(pos) + 1
                && state == old(state) && resume == old(resume) && buffered == NONE
      ensures old(buffered) == NONE && old(resume) <= old(pos) <= |input| && old(Coming(pos)).Reads? ==>
                old(Coming(pos)) == Reads(t, pos) && (t != Eof ==> Resting())
      ensures old(Resting() && pos <= |input|) ==>
                var g := Read(input, old(foreign), old(pos));
                g.Reads? ==> g == Reads(t, pos) && (t != Eof ==> Resting())
    {
      hide Suits, Rank, Settled, NeedsEmpty, IsReturn, Ahead, Read;
      ReadAhead();
      if buffered != NONE {
        t := CharToken(buffered);
        buffered := NONE;
        return;
      }
      // maybe_emit_from_mark
      if resume != NONE {
        if pos < resume {
          t := CharToken(Current());
          Next();
          return;
        }
        resume := NONE;
      }
      InBounds();
      t := Seek();
    }

    // In the data state the token that is coming is the one that the reader finds.
    lemma ReadAhead()
      ensures Resting() && pos <= |input| ==> Coming(pos) == Read(input, foreign, pos)
      ensures Resting() && pos < resume ==> Read(input, foreign, pos) == Reads(Char(input[pos]), pos + 1)
    {
    }

    lemma InBounds()
      requires Ready()
      ensures pos <= |input|
    {
    }

    // The loop of gumbo_lex.
    method Seek() returns (t: Token)
      requires Ready() && pos <= |input|
      modifies this
      ensures t == Eof ==> pos == |input|
      ensures t != Eof ==> Valid() && Below(Now(), old(Now()))
      ensures t.Tag? ==> state == Text(Data) && resume == NONE && buffered == NONE
      ensures old(Coming(pos)).Reads? ==> old(Coming(pos)) == Reads(t, pos) && (t != Eof ==> Resting())
    {
      hide Suits, Rank, Settled, NeedsEmpty, IsReturn, Ahead, Codes;
      while true
        invariant Ready() && pos <= |input|
        invariant Below(Now(), old(Now())) || Now() == old(Now())
        invariant old(Coming(pos)).Reads? ==> Coming(pos) == old(Coming(pos))
        decreases |input| - Settled(state, pos), Rank(state, At(input, pos))
      {
        SettledBounds(state, returnState, pos, mark, collecting, |input|);
        var r := Turn();
        if r.Emit? {
          return r.token;
        }
        SettledBounds(state, returnState, pos, mark, collecting, |input|);
      }
    }

    // HTML content in the data state throughout.
    ghost predicate StaysPlain(choose: seq<Token> -> State, isForeign: seq<Token> -> bool)
    {
      forall ts: seq<Token> :: choose(ts) == Text(Data) && !isForeign(ts)
    }

    // The tokens found so far and those that the reader finds from here on.
    ghost predicate Remaining(tokens: seq<Token>, all: seq<Token>)
      reads this`state, this`buffered, this`resume, this`pos
    {
      Resting() && pos <= |input| && all == tokens + ReadAll(input, false, pos)
    }

    lemma AllFrom(p: nat)
      requires p <= |input|
      ensures var r := Read(input, false, p);
              ReadAll(input, false, p) ==
              if r.Unread? then [] else if r.token == Eof then [Eof] else [r.token] + ReadAll(input, false, r.end)
    {
    }

    // One more token, which is the next one that the reader finds.
    method NextToken(ghost tokens: seq<Token>, inForeign: bool, ghost all: seq<Token>, ghost plain: bool)
      returns (t: Token)
      requires Valid() && (plain ==> !inForeign && (all <= tokens || Remaining(tokens, all)))
      modifies this
      ensures t == Eof ==> pos == |input|
      ensures t != Eof ==> Valid() && Below(Now(), old(Now()))
      ensures t.Tag? ==> state == Text(Data) && resume == NONE && buffered == NONE
      ensures plain ==> all <= tokens + [t] || (t != Eof && Remaining(tokens + [t], all))
    {
      hide Suits, Rank, Settled, NeedsEmpty, IsReturn, Read, Ahead, ReadAll, Codes;
      foreign := inForeign;
      t := Lex();
      if plain && !(all <= tokens) {
        AllFrom(old(pos));
        if t != Eof && pos <= |input| {
          assert tokens + ([t] + ReadAll(input, false, pos)) == tokens + [t] + ReadAll(input, false, pos);
        }
      }
    }

    // The loop of gumbo_parse_with_options as far as the lexer is concerned: the
    // tree builder sets the lexer's state after a start tag and says whether the
    // current node is foreign, both in any way it likes. The input is always used
    // up, by tokens of which only the last is its end. In HTML content that stays in
    // the data state they are the tokens that the reader finds.
    method Tokenize(choose: seq<Token> -> State, isForeign: seq<Token> -> bool) returns (tokens: seq<Token>)
      requires Valid()
      modifies this
      ensures tokens != [] && tokens[|tokens| - 1] == Eof && pos == |input|
      ensures forall i :: 0 <= i < |tokens| - 1 ==> tokens[i] != Eof
      ensures old(Resting() && pos <= |input|) && StaysPlain(choose, isForeign) ==>
                && ReadAll(input, false, old(pos)) <= tokens
                && (Eof in ReadAll(input, false, old(pos)) ==> tokens == ReadAll(input, false, old(pos)))
    {
      hide Suits, Rank, Settled, NeedsEmpty, IsReturn, Read, Ahead, ReadAll, Codes;
      tokens := [];
      ghost var plain := Resting() && pos <= |input| && StaysPlain(choose, isForeign);
      ghost var all := if pos <= |input| then ReadAll(input, false, pos) else [];
      while true
        invariant Valid() && forall i :: 0 <= i < |tokens| ==> tokens[i] != Eof
        invariant plain ==> all <= tokens || Remaining(tokens, all)
        decreases Now().left, Now().rank, Now().buffered, Now().pending
      {
        SettledBounds(state, returnState, Frontier(), mark, collecting, |input|);
        var t := NextToken(tokens, isForeign(tokens), all, plain);
        tokens := tokens + [t];
        if t == Eof {
          return;
        }
        SettledBounds(state, returnState, Frontier(), mark, collecting, |input|);
        if t.Tag? && t.start && IsContent(choose(tokens)) {
          ContentSuits(choose(tokens), At(input, pos), returnState, pos, mark, collecting, |input|);
          state := choose(tokens);
        }
      }
    }
  }
}
