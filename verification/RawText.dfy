/** RAWTEXT and script data in gumbo-parser/src/tokenizer.c: the lexer follows a
    possible end tag from a mark and rewinds to the mark when it is none. */
module RawText {

  datatype LexState =
    | Plaintext
    | Rawtext | RawtextLt | RawtextEndTagOpen | RawtextEndTagName
    | ScriptData | ScriptDataLt | ScriptDataEndTagOpen | ScriptDataEndTagName
    | EscapedStart | EscapedStartDash | Escaped | EscapedDash | EscapedDashDash
    | EscapedLt | EscapedEndTagOpen | EscapedEndTagName
    | DoubleEscapedStart | DoubleEscaped | DoubleEscapedDash | DoubleEscapedDashDash
    | DoubleEscapedLt | DoubleEscapedEnd
    | Data | BeforeAttrName | SelfClosingStartTag

  // How far a state has followed a possible end tag.
  datatype Depth = Outside | AfterLt | AfterSlash | InName

  function DepthOf(s: LexState): (d: Depth)
  {
    match s
    case RawtextLt | ScriptDataLt | EscapedLt => AfterLt
    case RawtextEndTagOpen | ScriptDataEndTagOpen | EscapedEndTagOpen => AfterSlash
    case RawtextEndTagName | ScriptDataEndTagName | EscapedEndTagName => InName
    case _ => Outside
  }

  // The states that a possible end tag goes on to and falls back to.
  function NameOf(s: LexState): (r: LexState)
  {
    match s
    case RawtextEndTagOpen => RawtextEndTagName
    case ScriptDataEndTagOpen => ScriptDataEndTagName
    case _ => EscapedEndTagName
  }

  function TextOf(s: LexState): (r: LexState)
  {
    match s
    case RawtextLt | RawtextEndTagOpen | RawtextEndTagName => Rawtext
    case ScriptDataLt | ScriptDataEndTagOpen | ScriptDataEndTagName => ScriptData
    case _ => Escaped
  }

  // The states modelled; the others belong to tags.
  predicate IsText(s: LexState)
  {
    s != Data && s != BeforeAttrName && s != SelfClosingStartTag
  }

  const EOF: int := -1
  const NO_TAG: int := -1
  const REPLACEMENT: int := 0xFFFD
  const SCRIPT: seq<int> := [115, 99, 114, 105, 112, 116]

  predicate IsAlpha(c: int)
  {
    65 <= c <= 90 || 97 <= c <= 122
  }

  function LowerCode(c: int): (r: int)
  {
    if 65 <= c <= 90 then c + 32 else c
  }

  function LowerAll(s: seq<int>): (r: seq<int>)
    ensures |r| == |s| && forall i :: 0 <= i < |s| ==> r[i] == LowerCode(s[i])
  {
    seq(|s|, i requires 0 <= i < |s| => LowerCode(s[i]))
  }

  predicate IsSpace(c: int)
  {
    c == 9 || c == 10 || c == 12 || c == 32
  }

  // Ends the name of an end tag.
  predicate IsDelimiter(c: int)
  {
    IsSpace(c) || c == '/' as int || c == '>' as int
  }

  // What the characters are emitted as.
  function Clean(s: seq<int>): (r: seq<int>)
    ensures |r| == |s| && forall i :: 0 <= i < |s| ==> r[i] == if s[i] == 0 then REPLACEMENT else s[i]
  {
    seq(|s|, i requires 0 <= i < |s| => if s[i] == 0 then REPLACEMENT else s[i])
  }

  lemma CleanMore(s: seq<int>, from: nat, k: nat)
    requires from <= k < |s|
    ensures Clean(s[from..k + 1]) == Clean(s[from..k]) + [if s[k] == 0 then REPLACEMENT else s[k]]
  {
  }

  // The end of the letters at k.
  function NameEnd(s: seq<int>, k: nat): (e: nat)
    requires k <= |s|
    ensures k <= e <= |s| && (forall i :: k <= i < e ==> IsAlpha(s[i])) && (e < |s| ==> !IsAlpha(s[e]))
    decreases |s| - k
  {
    if k < |s| && IsAlpha(s[k]) then NameEnd(s, k + 1) else k
  }

  lemma {:induction false} NameEndIs(s: seq<int>, k: nat, e: nat)
    requires k <= e <= |s| && (forall i :: k <= i < e ==> IsAlpha(s[i])) && (e < |s| ==> !IsAlpha(s[e]))
    ensures NameEnd(s, k) == e
    decreases |s| - k
  {
    if k < e {
      NameEndIs(s, k + 1, e);
    }
  }

  // An appropriate end tag, up to the delimiter after its name, starts at q.
  predicate AppropriateAt(s: seq<int>, tagOf: seq<int> -> int, last: int, q: nat)
  {
    && q + 2 < |s| && s[q] == '<' as int && s[q + 1] == '/' as int && IsAlpha(s[q + 2])
    && var e := NameEnd(s, q + 2);
       e < |s| && IsDelimiter(s[e]) && last != NO_TAG && tagOf(LowerAll(s[q + 2..e])) == last
  }

  // Where the lexer is: in RAWTEXT, in script data, or in script data that
  // looks like a comment, with the number of dashes just read.
  datatype Mode = Never | Raw | Script | Esc(dashes: nat) | Dbl(dashes: nat)

  // "<!--" stands at k.
  predicate CommentAt(s: seq<int>, k: nat)
  {
    k + 4 <= |s| && s[k] == '<' as int && s[k + 1] == '!' as int && s[k + 2] == '-' as int && s[k + 3] == '-' as int
  }

  function Dashes(c: int, d: nat): (r: nat)
  {
    if c != '-' as int then 0 else if d == 0 then 1 else 2
  }

  // Where the text ends that starts at k: at the end tag that closes it, or at
  // the end of the input. Written with lookahead, without a mark.
  function TextEnd(s: seq<int>, tagOf: seq<int> -> int, last: int, k: nat, mode: Mode): (e: nat)
    requires k <= |s|
    ensures k <= e <= |s|
    ensures e < |s| ==> AppropriateAt(s, tagOf, last, e)
    decreases |s| - k, 0
  {
    if k == |s| then k
    else if mode == Never then TextEnd(s, tagOf, last, k + 1, Never)
    else if !mode.Dbl? && AppropriateAt(s, tagOf, last, k) then k
    else if mode == Raw then TextEnd(s, tagOf, last, k + 1, Raw)
    else if mode == Script then
      if CommentAt(s, k) then TextEnd(s, tagOf, last, k + 4, Esc(2)) else TextEnd(s, tagOf, last, k + 1, Script)
    else if s[k] == '>' as int && mode.dashes >= 2 then TextEnd(s, tagOf, last, k + 1, Script)
    else if mode.Esc? then
      if s[k] == '<' as int && k + 1 < |s| && IsAlpha(s[k + 1]) then
        AfterWord(s, tagOf, last, k + 1, Dbl(0), Esc(0))
      else TextEnd(s, tagOf, last, k + 1, Esc(Dashes(s[k], mode.dashes)))
    else if s[k] == '<' as int && k + 1 < |s| && s[k + 1] == '/' as int then
      AfterWord(s, tagOf, last, k + 2, Esc(0), Dbl(0))
    else TextEnd(s, tagOf, last, k + 1, Dbl(Dashes(s[k], mode.dashes)))
  }

  // A word in comment-like script data: "script" and a delimiter change the mode.
  function AfterWord(s: seq<int>, tagOf: seq<int> -> int, last: int, k: nat, changed: Mode, same: Mode): (e: nat)
    requires 0 < k <= |s|
    ensures k <= e <= |s|
    ensures e < |s| ==> AppropriateAt(s, tagOf, last, e)
    decreases |s| - k, 1
  {
    var e := NameEnd(s, k);
    if e < |s| && IsDelimiter(s[e]) then
      TextEnd(s, tagOf, last, e + 1, if LowerAll(s[k..e]) == SCRIPT then changed else same)
    else TextEnd(s, tagOf, last, e, same)
  }

  // Outside of comment-like script data the text ends at the first appropriate
  // end tag.
  lemma {:induction false} FirstEndTag(s: seq<int>, tagOf: seq<int> -> int, last: int, k: nat, mode: Mode)
    requires k <= |s| && (mode == Raw || (mode == Script && forall i :: k <= i < |s| ==> !CommentAt(s, i)))
    ensures forall q :: k <= q < TextEnd(s, tagOf, last, k, mode) ==> !AppropriateAt(s, tagOf, last, q)
    decreases |s| - k
  {
    hide NameEnd;
    if k < |s| && !AppropriateAt(s, tagOf, last, k) {
      FirstEndTag(s, tagOf, last, k + 1, mode);
    }
  }

  function ModeOf(st: LexState): (m: Mode)
  {
    if st == Plaintext then Never else if st == Rawtext then Raw else Script
  }

  // Characters that mean nothing in any mode are skipped.
  lemma {:induction false} Skip(s: seq<int>, tagOf: seq<int> -> int, last: int, k: nat, e: nat, mode: Mode)
    requires k <= e <= |s| && (mode == Raw || mode == Script || mode == Esc(0))
    requires forall i :: k <= i < e ==> s[i] != '<' as int && s[i] != '-' as int && s[i] != '>' as int
    ensures TextEnd(s, tagOf, last, k, mode) == TextEnd(s, tagOf, last, e, mode)
    decreases e - k
  {
    if k < e {
      Skip(s, tagOf, last, k + 1, e, mode);
    }
  }

  // In a state, with the cursor at pos, the text will end at goal.
  ghost predicate OnCourse(s: seq<int>, tagOf: seq<int> -> int, last: int, st: LexState, pos: nat, mark: nat,
      word: seq<int>, goal: nat)
    requires pos <= |s| && (DepthOf(st) == Outside || mark <= |s|)
  {
    match st
    case Plaintext => goal == TextEnd(s, tagOf, last, pos, Never)
    case Rawtext => goal == TextEnd(s, tagOf, last, pos, Raw)
    case RawtextLt | RawtextEndTagOpen | RawtextEndTagName => goal == TextEnd(s, tagOf, last, mark, Raw)
    case ScriptData => goal == TextEnd(s, tagOf, last, pos, Script)
    case ScriptDataLt | ScriptDataEndTagOpen | ScriptDataEndTagName => goal == TextEnd(s, tagOf, last, mark, Script)
    case EscapedStart =>
      && pos >= 2 && s[pos - 2] == '<' as int && s[pos - 1] == '!' as int
      && goal == TextEnd(s, tagOf, last, pos - 2, Script)
    case EscapedStartDash =>
      && pos >= 3 && s[pos - 3] == '<' as int && s[pos - 2] == '!' as int && s[pos - 1] == '-' as int
      && goal == TextEnd(s, tagOf, last, pos - 3, Script)
    case Escaped => goal == TextEnd(s, tagOf, last, pos, Esc(0))
    case EscapedDash => goal == TextEnd(s, tagOf, last, pos, Esc(1))
    case EscapedDashDash => goal == TextEnd(s, tagOf, last, pos, Esc(2))
    case EscapedLt | EscapedEndTagOpen | EscapedEndTagName => goal == TextEnd(s, tagOf, last, mark, Esc(0))
    case DoubleEscapedStart =>
      InWord(s, pos, word, 1) && goal == AfterWord(s, tagOf, last, pos - |word|, Dbl(0), Esc(0))
    case DoubleEscaped => goal == TextEnd(s, tagOf, last, pos, Dbl(0))
    case DoubleEscapedDash => goal == TextEnd(s, tagOf, last, pos, Dbl(1))
    case DoubleEscapedDashDash => goal == TextEnd(s, tagOf, last, pos, Dbl(2))
    case DoubleEscapedLt => pos >= 1 && s[pos - 1] == '<' as int && goal == TextEnd(s, tagOf, last, pos - 1, Dbl(0))
    case DoubleEscapedEnd => InWord(s, pos, word, 2) && goal == AfterWord(s, tagOf, last, pos - |word|, Esc(0), Dbl(0))
    case _ => true
  }

  // The letters of a word have been read up to pos.
  ghost predicate InWord(s: seq<int>, pos: nat, word: seq<int>, before: nat)
    requires pos <= |s|
  {
    && |word| + before <= pos && word == LowerAll(s[pos - |word|..pos])
    && forall i :: pos - |word| <= i < pos ==> IsAlpha(s[i])
  }

  datatype Token = Char(c: int) | Eof | EndTag(tag: int)

  datatype Result = Emit(token: Token) | Continue

  datatype Outcome = Text(c: int) | AtEof | AtEndTag | AtAttributes

  // States from which the current character is not handed on without being
  // consumed. Every other state may hand it to one of these.
  function Rank(s: LexState): (r: nat)
  {
    match s
    case RawtextEndTagOpen | ScriptDataEndTagOpen | EscapedEndTagOpen => 1
    case EscapedStart | EscapedStartDash | DoubleEscapedStart | DoubleEscapedLt | DoubleEscapedEnd => 1
    case _ => 0
  }

  // The text consumed so far is what has been emitted, followed by the stretch
  // from the mark to the cursor while a possible end tag is being followed.
  ghost predicate Consistent(s: seq<int>, from: nat, st: LexState, pos: nat, mark: nat,
      name: seq<int>, emitted: seq<int>)
  {
    && from <= pos <= |s| && IsText(st)
    && if DepthOf(st) == Outside then
         emitted == Clean(s[from..pos])
       else
         && from <= mark < pos && s[mark] == '<' as int && emitted == Clean(s[from..mark])
         && (DepthOf(st) == AfterLt ==> pos == mark + 1)
         && (DepthOf(st) != AfterLt ==> mark + 1 < pos && s[mark + 1] == '/' as int)
         && (DepthOf(st) == AfterSlash ==> pos == mark + 2)
         && (DepthOf(st) == InName ==>
               && mark + 2 <= pos && name == LowerAll(s[mark + 2..pos])
               && (forall i :: mark + 2 <= i < pos ==> IsAlpha(s[i]))
               && (pos == mark + 2 ==> pos < |s| && IsAlpha(s[pos])))
  }

  // Characters up to `resume` are still to be emitted from the mark.
  ghost predicate Pending(s: seq<int>, from: nat, st: LexState, pos: nat, resume: nat, emitted: seq<int>)
  {
    && from <= pos <= resume <= |s| && IsText(st) && DepthOf(st) == Outside
    && emitted == Clean(s[from..pos]) && (forall i :: pos <= i < resume ==> s[i] != 0)
  }

  // The end tag at the mark has been accepted, with its name read up to pos.
  ghost predicate Accepted(s: seq<int>, tagOf: seq<int> -> int, last: int, from: nat, mark: nat, pos: nat,
      emitted: seq<int>)
  {
    && from <= mark && mark + 2 < pos < |s| && AppropriateAt(s, tagOf, last, mark) && pos == NameEnd(s, mark + 2)
    && emitted == Clean(s[from..mark])
  }

  lemma PlainStep(s: seq<int>, from: nat, st: LexState, pos: nat, mark: nat,
      name: seq<int>, emitted: seq<int>, st': LexState)
    requires Consistent(s, from, st, pos, mark, name, emitted) && DepthOf(st) == Outside && pos < |s|
    requires IsText(st') && DepthOf(st') == Outside
    ensures Consistent(s, from, st', pos + 1, mark, name, emitted + [if s[pos] == 0 then REPLACEMENT else s[pos]])
  {
    CleanMore(s, from, pos);
  }

  lemma MarkStep(s: seq<int>, from: nat, st: LexState, pos: nat, mark: nat,
      name: seq<int>, emitted: seq<int>, st': LexState)
    requires Consistent(s, from, st, pos, mark, name, emitted) && DepthOf(st) == Outside && pos < |s|
    requires s[pos] == '<' as int && DepthOf(st') == AfterLt
    ensures Consistent(s, from, st', pos + 1, pos, name, emitted)
  {
  }

  lemma SlashStep(s: seq<int>, from: nat, st: LexState, pos: nat, mark: nat,
      name: seq<int>, emitted: seq<int>, st': LexState)
    requires Consistent(s, from, st, pos, mark, name, emitted) && DepthOf(st) == AfterLt && pos < |s|
    requires s[pos] == '/' as int && DepthOf(st') == AfterSlash
    ensures Consistent(s, from, st', pos + 1, mark, name, emitted)
  {
  }

  lemma NameStart(s: seq<int>, from: nat, st: LexState, pos: nat, mark: nat,
      name: seq<int>, emitted: seq<int>, st': LexState)
    requires Consistent(s, from, st, pos, mark, name, emitted) && DepthOf(st) == AfterSlash && pos < |s|
    requires IsAlpha(s[pos]) && DepthOf(st') == InName
    ensures Consistent(s, from, st', pos, mark, [], emitted)
  {
    assert s[mark + 2..pos] == [];
  }

  lemma NameMore(s: seq<int>, from: nat, st: LexState, pos: nat, mark: nat,
      name: seq<int>, emitted: seq<int>)
    requires Consistent(s, from, st, pos, mark, name, emitted) && DepthOf(st) == InName && pos < |s| && IsAlpha(s[pos])
    ensures Consistent(s, from, st, pos + 1, mark, name + [LowerCode(s[pos])], emitted)
  {
    assert s[mark + 2..pos + 1] == s[mark + 2..pos] + [s[pos]];
  }

  // What the lexer knows about an end tag whose name has ended.
  lemma NameEnded(s: seq<int>, tagOf: seq<int> -> int, last: int, from: nat, st: LexState, pos: nat, mark: nat,
      name: seq<int>, emitted: seq<int>)
    requires Consistent(s, from, st, pos, mark, name, emitted) && DepthOf(st) == InName
    requires pos < |s| ==> !IsAlpha(s[pos])
    ensures AppropriateAt(s, tagOf, last, mark) <==>
              pos < |s| && IsDelimiter(s[pos]) && last != NO_TAG && tagOf(name) == last
    ensures AppropriateAt(s, tagOf, last, mark) ==> Accepted(s, tagOf, last, from, mark, pos, emitted)
  {
    NameEndIs(s, mark + 2, pos);
  }

  // The mark holds no appropriate end tag: what was followed becomes text.
  lemma Rewind(s: seq<int>, from: nat, st: LexState, pos: nat, mark: nat,
      name: seq<int>, emitted: seq<int>, st': LexState, resume: nat)
    requires Consistent(s, from, st, pos, mark, name, emitted) && DepthOf(st) != Outside
    requires IsText(st') && DepthOf(st') == Outside
    requires resume == pos || (resume == pos + 1 && pos < |s| && s[pos] == '!' as int)
    ensures Pending(s, from, st', mark + 1, resume, emitted + ['<' as int]) && s[mark] == '<' as int
  {
    CleanMore(s, from, mark);
  }

  lemma PendingStep(s: seq<int>, from: nat, st: LexState, pos: nat, resume: nat, emitted: seq<int>)
    requires Pending(s, from, st, pos, resume, emitted) && pos < resume
    ensures Pending(s, from, st, pos + 1, resume, emitted + [s[pos]])
  {
    CleanMore(s, from, pos);
  }

  // What is known while a possible end tag is being followed.
  lemma Marked(s: seq<int>, tagOf: seq<int> -> int, last: int, from: nat, st: LexState, pos: nat, mark: nat,
      name: seq<int>, emitted: seq<int>)
    requires Consistent(s, from, st, pos, mark, name, emitted) && DepthOf(st) != Outside
    ensures mark < pos <= |s| && mark < |s| && s[mark] == '<' as int && IsText(st)
    ensures DepthOf(st) == AfterLt ==> pos == mark + 1
    ensures DepthOf(st) == AfterLt && (pos == |s| || s[pos] != '/' as int) ==> !AppropriateAt(s, tagOf, last, mark)
    ensures DepthOf(st) == AfterSlash && (pos == |s| || !IsAlpha(s[pos])) ==> !AppropriateAt(s, tagOf, last, mark)
  {
    hide NameEnd;
  }

  lemma StillOutside(s: seq<int>, from: nat, st: LexState, pos: nat, mark: nat, name: seq<int>,
      emitted: seq<int>, st': LexState)
    requires Consistent(s, from, st, pos, mark, name, emitted) && DepthOf(st) == Outside && IsText(st')
    requires DepthOf(st') == Outside
    ensures Consistent(s, from, st', pos, mark, name, emitted)
  {
  }

  // A mark without an appropriate end tag is skipped.
  lemma CourseRewound(s: seq<int>, tagOf: seq<int> -> int, last: int, from: nat, st: LexState, pos: nat, mark: nat,
      name: seq<int>, emitted: seq<int>, word: seq<int>, goal: nat)
    requires Consistent(s, from, st, pos, mark, name, emitted) && DepthOf(st) != Outside
    requires !AppropriateAt(s, tagOf, last, mark)
    requires OnCourse(s, tagOf, last, st, pos, mark, word, goal)
    requires st == ScriptDataLt && pos < |s| ==> s[pos] != '!' as int
    requires st == EscapedLt && pos < |s| ==> !IsAlpha(s[pos])
    ensures OnCourse(s, tagOf, last, TextOf(st), pos, mark, word, goal)
  {
    hide TextEnd, AppropriateAt, NameEnd;
    var mode := if TextOf(st) == Rawtext then Raw else if TextOf(st) == ScriptData then Script else Esc(0);
    MarkSkipped(s, tagOf, last, mark, mode);
    Skip(s, tagOf, last, mark + 1, pos, mode);
  }

  lemma MarkSkipped(s: seq<int>, tagOf: seq<int> -> int, last: int, mark: nat, mode: Mode)
    requires mark < |s| && s[mark] == '<' as int && !AppropriateAt(s, tagOf, last, mark)
    requires mode == Raw || mode == Script || mode == Esc(0)
    requires mode == Script && mark + 1 < |s| ==> s[mark + 1] != '!' as int
    requires mode == Esc(0) && mark + 1 < |s| ==> !IsAlpha(s[mark + 1])
    ensures TextEnd(s, tagOf, last, mark, mode) == TextEnd(s, tagOf, last, mark + 1, mode)
  {
  }

  // An appropriate end tag at the mark ends the text.
  lemma CourseAccepted(s: seq<int>, tagOf: seq<int> -> int, last: int, st: LexState, pos: nat, mark: nat,
      word: seq<int>, goal: nat)
    requires pos <= |s| && mark < |s| && DepthOf(st) == InName && OnCourse(s, tagOf, last, st, pos, mark, word, goal)
    ensures AppropriateAt(s, tagOf, last, mark) ==> goal == mark
    ensures pos < |s| ==> OnCourse(s, tagOf, last, st, pos + 1, mark, word, goal)
  {
  }

  // An emitted character that is not a less-than sign.
  lemma CoursePlain(s: seq<int>, tagOf: seq<int> -> int, last: int, st: LexState, pos: nat, mark: nat,
      word: seq<int>, goal: nat)
    requires pos <= |s| && (st == Plaintext || st == Rawtext || st == ScriptData)
    requires OnCourse(s, tagOf, last, st, pos, mark, word, goal)
    ensures pos == |s| ==> goal == pos
    ensures pos < |s| && (s[pos] != '<' as int || st == Plaintext) ==>
            OnCourse(s, tagOf, last, st, pos + 1, mark, word, goal)
    ensures pos < |s| && st != Plaintext ==>
              OnCourse(s, tagOf, last, if st == Rawtext then RawtextLt else ScriptDataLt, pos + 1, pos, word, goal)
  {
  }

  lemma CourseEscapedStart(s: seq<int>, tagOf: seq<int> -> int, last: int, st: LexState, pos: nat, mark: nat,
      word: seq<int>, goal: nat)
    requires pos <= |s| && (st == EscapedStart || st == EscapedStartDash)
    requires OnCourse(s, tagOf, last, st, pos, mark, word, goal)
    ensures if pos < |s| && s[pos] == '-' as int
            then OnCourse(s, tagOf, last, if st == EscapedStart then EscapedStartDash else EscapedDashDash,
                   pos + 1, mark, word, goal)
            else OnCourse(s, tagOf, last, ScriptData, pos, mark, word, goal)
  {
    hide TextEnd, AfterWord, NameEnd;
    var k := if st == EscapedStart then pos - 2 else pos - 3;
    if pos == |s| || s[pos] != '-' as int {
      StepPlain(s, tagOf, last, k, pos);
    } else if st == EscapedStartDash {
      StepComment(s, tagOf, last, k);
    }
  }

  // Text in script data that starts like a comment.
  lemma StepComment(s: seq<int>, tagOf: seq<int> -> int, last: int, k: nat)
    requires CommentAt(s, k)
    ensures TextEnd(s, tagOf, last, k, Script) == TextEnd(s, tagOf, last, k + 4, Esc(2))
  {
    hide AfterWord, NameEnd;
    assert !AppropriateAt(s, tagOf, last, k);
  }

  // Text in script data that starts with '<!' but is no comment.
  lemma StepPlain(s: seq<int>, tagOf: seq<int> -> int, last: int, k: nat, pos: nat)
    requires k + 2 <= pos <= k + 3 && pos <= |s| && s[k] == '<' as int && s[k + 1] == '!' as int && !CommentAt(s, k)
    requires pos == k + 3 ==> s[k + 2] == '-' as int
    ensures TextEnd(s, tagOf, last, k, Script) == TextEnd(s, tagOf, last, pos, Script)
  {
    hide NameEnd, AfterWord;
    assert TextEnd(s, tagOf, last, k, Script) == TextEnd(s, tagOf, last, k + 1, Script);
    assert TextEnd(s, tagOf, last, k + 1, Script) == TextEnd(s, tagOf, last, k + 2, Script);
    if pos == k + 3 {
      assert TextEnd(s, tagOf, last, k + 2, Script) == TextEnd(s, tagOf, last, k + 3, Script);
    }
  }

  lemma CourseEscaped(s: seq<int>, tagOf: seq<int> -> int, last: int, st: LexState, pos: nat, mark: nat,
      word: seq<int>, goal: nat)
    requires pos <= |s| && (st == Escaped || st == EscapedDash || st == EscapedDashDash)
    requires OnCourse(s, tagOf, last, st, pos, mark, word, goal)
    ensures pos == |s| ==> goal == pos
    ensures pos < |s| && s[pos] == '<' as int ==> OnCourse(s, tagOf, last, EscapedLt, pos + 1, pos, [], goal)
    ensures pos < |s| && s[pos] != '<' as int ==>
              OnCourse(s, tagOf, last,
                if s[pos] == '-' as int then (if st == Escaped then EscapedDash else EscapedDashDash)
                else if s[pos] == '>' as int && st == EscapedDashDash then ScriptData else Escaped,
                pos + 1, mark, word, goal)
  {
    hide NameEnd;
  }

  lemma CourseDoubleEscaped(s: seq<int>, tagOf: seq<int> -> int, last: int, st: LexState, pos: nat, mark: nat,
      word: seq<int>, goal: nat)
    requires pos <= |s| && (st == DoubleEscaped || st == DoubleEscapedDash || st == DoubleEscapedDashDash)
    requires OnCourse(s, tagOf, last, st, pos, mark, word, goal)
    ensures pos == |s| ==> goal == pos
    ensures pos < |s| ==>
              OnCourse(s, tagOf, last,
                if s[pos] == '-' as int then (if st == DoubleEscaped then DoubleEscapedDash else DoubleEscapedDashDash)
                else if s[pos] == '<' as int then DoubleEscapedLt
                else if s[pos] == '>' as int && st == DoubleEscapedDashDash then ScriptData else DoubleEscaped,
                pos + 1, mark, word, goal)
  {
    hide NameEnd, AppropriateAt;
  }

  lemma CourseDoubleEscapedLt(s: seq<int>, tagOf: seq<int> -> int, last: int, pos: nat, mark: nat, word: seq<int>,
      goal: nat)
    requires pos <= |s| && OnCourse(s, tagOf, last, DoubleEscapedLt, pos, mark, word, goal)
    ensures if pos < |s| && s[pos] == '/' as int
            then OnCourse(s, tagOf, last, DoubleEscapedEnd, pos + 1, mark, [], goal)
            else OnCourse(s, tagOf, last, DoubleEscaped, pos, mark, word, goal)
  {
    hide NameEnd, AppropriateAt;
    if pos < |s| { assert s[pos + 1..pos + 1] == []; }
  }

  lemma CourseEscapedLt(s: seq<int>, tagOf: seq<int> -> int, last: int, pos: nat, mark: nat, goal: nat)
    requires mark + 1 == pos < |s| && s[mark] == '<' as int && OnCourse(s, tagOf, last, EscapedLt, pos, mark, [], goal)
    ensures IsAlpha(s[pos]) ==> OnCourse(s, tagOf, last, DoubleEscapedStart, pos, mark, [], goal)
  {
    hide NameEnd;
    assert s[pos..pos] == [];
  }

  lemma CourseWord(s: seq<int>, tagOf: seq<int> -> int, last: int, st: LexState, pos: nat, mark: nat,
      word: seq<int>, goal: nat)
    requires pos <= |s| && (st == DoubleEscapedStart || st == DoubleEscapedEnd)
    requires OnCourse(s, tagOf, last, st, pos, mark, word, goal)
    ensures if pos < |s| && IsDelimiter(s[pos]) then
              OnCourse(s, tagOf, last,
                if (word == SCRIPT) == (st == DoubleEscapedStart) then DoubleEscaped else Escaped,
                pos + 1, mark, word, goal)
            else if pos < |s| && IsAlpha(s[pos]) then
              OnCourse(s, tagOf, last, st, pos + 1, mark, word + [LowerCode(s[pos])], goal)
            else OnCourse(s, tagOf, last, if st == DoubleEscapedStart then Escaped else DoubleEscaped,
                   pos, mark, word, goal)
  {
    hide TextEnd, AppropriateAt, NameEnd, AfterWord;
    if pos < |s| && IsAlpha(s[pos]) {
      WordMore(s, pos, word, if st == DoubleEscapedStart then 1 else 2);
    } else if st == DoubleEscapedStart {
      WordEnds(s, tagOf, last, pos, word, 1, Dbl(0), Esc(0));
    } else {
      WordEnds(s, tagOf, last, pos, word, 2, Esc(0), Dbl(0));
    }
  }

  lemma WordMore(s: seq<int>, pos: nat, word: seq<int>, before: nat)
    requires pos < |s| && IsAlpha(s[pos]) && InWord(s, pos, word, before)
    ensures InWord(s, pos + 1, word + [LowerCode(s[pos])], before)
  {
    var k := pos - |word|;
    assert s[k..pos + 1] == s[k..pos] + [s[pos]];
  }

  // What follows the last letter of a word decides on the mode.
  lemma WordEnds(s: seq<int>, tagOf: seq<int> -> int, last: int, pos: nat, word: seq<int>, before: nat,
      changed: Mode, same: Mode)
    requires 0 < before && pos <= |s| && InWord(s, pos, word, before) && (pos < |s| ==> !IsAlpha(s[pos]))
    ensures AfterWord(s, tagOf, last, pos - |word|, changed, same) ==
            if pos < |s| && IsDelimiter(s[pos]) then
              TextEnd(s, tagOf, last, pos + 1, if word == SCRIPT then changed else same)
            else TextEnd(s, tagOf, last, pos, same)
  {
    hide TextEnd, AppropriateAt, NameEnd;
    NameEndIs(s, pos - |word|, pos);
  }

  class Lexer {
    const input: seq<int>               // code points, carriage returns normalised
    const tagOf: seq<int> -> int        // gumbo_tagn_enum
    const lastStartTag: int
    ghost const from: nat
    ghost const goal: nat               // where the text ends
    var pos: nat
    var mark: nat
    var resumePos: int                  // -1 for NULL
    var reconsume: bool
    var state: LexState
    var name: seq<int>                  // the tag buffer
    var temporary: seq<int>
    ghost var emitted: seq<int>

    ghost predicate Reads(pos: nat)
      reads this`mark, this`state, this`name, this`temporary, this`emitted
    {
      && (forall i :: 0 <= i < |input| ==> input[i] >= 0) && pos <= |input|
      && Consistent(input, from, state, pos, mark, name, emitted) && (state == EscapedLt ==> temporary == [])
      && OnCourse(input, tagOf, lastStartTag, state, pos, mark, temporary, goal)
    }

    // Between two calls of gumbo_lex.
    ghost predicate Valid()
      reads this
    {
      && !reconsume
      && if resumePos == -1 then Reads(pos)
         else
           && (forall i :: 0 <= i < |input| ==> input[i] >= 0) && resumePos >= 0
           && Pending(input, from, state, pos, resumePos, emitted)
           && OnCourse(input, tagOf, lastStartTag, state, resumePos, mark, temporary, goal)
    }

    constructor (input: seq<int>, from: nat, tagOf: seq<int> -> int, lastStartTag: int, state: LexState)
      requires from <= |input| && (state == Plaintext || state == Rawtext || state == ScriptData)
      requires forall i :: 0 <= i < |input| ==> input[i] >= 0
      ensures Valid() && this.input == input && this.from == from && this.tagOf == tagOf
      ensures this.lastStartTag == lastStartTag
      ensures this.state == state && emitted == []
      ensures goal == TextEnd(input, tagOf, lastStartTag, from, ModeOf(state))
    {
      this.input, this.from, this.tagOf, this.lastStartTag, this.state := input, from, tagOf, lastStartTag, state;
      goal := TextEnd(input, tagOf, lastStartTag, from, ModeOf(state));
      pos, mark, resumePos, reconsume, name, temporary, emitted := from, 0, -1, false, [], [], [];
      new;
      assert input[from..from] == [];
    }

    function Current(): (c: int)
      reads this
    {
      if pos < |input| then input[pos] else EOF
    }

    // utf8iterator_next: at the end of the input nothing happens.
    method Next()
      modifies this`pos
      ensures pos == if old(pos) < |input| then old(pos) + 1 else old(pos)
    {
      if pos < |input| {
        pos := pos + 1;
      }
    }

    // emit_char
    method EmitChar(c: int) returns (r: Result)
      modifies this`pos, this`emitted
      ensures r == if c == EOF then Emit(Eof) else Emit(Char(c))
      ensures pos == if !reconsume && old(pos) < |input| then old(pos) + 1 else old(pos)
      ensures emitted == if c == EOF then old(emitted) else old(emitted) + [c]
    {
      if !reconsume {
        Next();
      }
      if c != EOF {
        emitted := emitted + [c];
      }
      r := if c == EOF then Emit(Eof) else Emit(Char(c));
    }

    // A character token is emitted and the lexer goes on in state st.
    method EmitIn(c: int, st: LexState) returns (r: Result)
      modifies this`pos, this`emitted, this`state
      requires resumePos == -1 && !reconsume && Consistent(input, from, state, pos, mark, name, emitted)
      requires (forall i :: 0 <= i < |input| ==> input[i] >= 0) && DepthOf(state) == Outside && IsText(st)
      requires DepthOf(st) == Outside
      requires pos < |input| ==> OnCourse(input, tagOf, lastStartTag, st, pos + 1, mark, temporary, goal)
      requires pos == |input| ==> goal == |input|
      requires c == if Current() == 0 then REPLACEMENT else Current()
      ensures Stepped(old(state), old(pos), old(emitted), r) && !r.Continue?
    {
      hide TextEnd, AfterWord, AppropriateAt, NameEnd, Accepted, OnCourse;
      if pos < |input| && c != EOF {
        PlainStep(input, from, state, pos, mark, name, emitted, st);
      }
      state := st;
      r := EmitChar(c);
    }

    // What one call of a state function does, started in state st0 at pos0.
    ghost predicate Stepped(st0: LexState, pos0: nat, emitted0: seq<int>, r: Result)
      reads this
    {
      match r
      case Continue =>
        && resumePos == -1 && emitted == emitted0 && pos == pos0
        && if !IsText(state) then
             && !reconsume && mark == goal && pos < |input| && input[pos] != '>' as int
             && Accepted(input, tagOf, lastStartTag, from, mark, pos, emitted)
           else if reconsume then Reads(pos) && Rank(state) < Rank(st0)
           else pos < |input| && Reads(pos + 1)
      case Emit(Char(c)) =>
        Valid() && emitted == emitted0 + [c]
      case Emit(Eof) =>
        && !reconsume && resumePos == -1 && pos == |input| == goal && from <= pos
        && emitted == emitted0 == Clean(input[from..])
      case Emit(EndTag(tag)) =>
        && !reconsume && resumePos == -1 && tag == lastStartTag && emitted == emitted0
        && pos > 0 && mark == goal && Accepted(input, tagOf, lastStartTag, from, mark, pos - 1, emitted)
        && input[pos - 1] == '>' as int
    }

    // A state function is about to read the current character.
    ghost predicate Ready()
      reads this
    {
      resumePos == -1 && !reconsume && Reads(pos)
    }

    method ReconsumeIn(st: LexState)
      modifies this`reconsume, this`state
      ensures reconsume && state == st
    {
      reconsume := true;
      state := st;
    }

    // maybe_emit_from_mark
    method MaybeEmitFromMark() returns (r: Result)
      requires Valid()
      modifies this`pos, this`resumePos, this`emitted
      ensures if old(resumePos) == -1 || old(pos) >= old(resumePos)
              then r == Continue && Ready() && pos == old(pos) && emitted == old(emitted)
              else Valid() && r == Emit(Char(input[old(pos)])) && emitted == old(emitted) + [input[old(pos)]]
    {
      hide TextEnd, AfterWord, AppropriateAt, NameEnd, Accepted, OnCourse;
      if resumePos == -1 {
        return Continue;
      }
      if pos >= resumePos {
        resumePos := -1;
        assert DepthOf(state) == Outside;
        return Continue;
      }
      PendingStep(input, from, state, pos, resumePos, emitted);
      r := EmitChar(Current());
    }

    // emit_from_mark, when the lexer goes on in state st and `resume` is the
    // position it has reached.
    method EmitFromMark(ghost st0: LexState, ghost pos0: nat) returns (r: Result)
      requires resumePos == -1 && mark < pos && IsText(state) && DepthOf(state) == Outside
      requires pos == pos0 || (pos == pos0 + 1 && pos0 < |input| && input[pos0] == '!' as int)
      requires (forall i :: 0 <= i < |input| ==> input[i] >= 0) && DepthOf(st0) != Outside
      requires Consistent(input, from, st0, pos0, mark, name, emitted)
      requires OnCourse(input, tagOf, lastStartTag, state, pos, mark, temporary, goal)
      modifies this`pos, this`resumePos, this`reconsume, this`emitted
      ensures Stepped(st0, pos0, old(emitted), r) && r == Emit(Char('<' as int))
    {
      hide TextEnd, AfterWord, AppropriateAt, NameEnd, Consistent, Accepted, OnCourse;
      Rewind(input, from, st0, pos0, mark, name, emitted, state, pos);
      resumePos := pos;
      pos := mark;
      reconsume := false;
      // The first step of maybe_emit_from_mark.
      r := EmitChar(Current());
    }

    // A less-than sign that may start an end tag is marked.
    method OpenMark(st: LexState) returns (r: Result)
      requires resumePos == -1 && !reconsume && Consistent(input, from, state, pos, mark, name, emitted)
      requires (forall i :: 0 <= i < |input| ==> input[i] >= 0) && DepthOf(state) == Outside && DepthOf(st) == AfterLt
      requires pos < |input| && input[pos] == '<' as int && (st == EscapedLt ==> temporary == [])
      requires OnCourse(input, tagOf, lastStartTag, st, pos + 1, pos, temporary, goal)
      modifies this`state, this`mark
      ensures Stepped(old(state), old(pos), old(emitted), r)
    {
      hide TextEnd, AfterWord, AppropriateAt, NameEnd, Consistent, Accepted, OnCourse;
      MarkStep(input, from, state, pos, mark, name, emitted, st);
      state := st;
      mark := pos;
      r := Continue;
    }

    // What was followed from the mark is no end tag: it is given back as text.
    method GiveBack(text: LexState) returns (r: Result)
      requires Ready() && DepthOf(state) != Outside && text == TextOf(state) && mark < |input|
      requires !AppropriateAt(input, tagOf, lastStartTag, mark)
      requires state == ScriptDataLt ==> Current() != '!' as int
      requires state == EscapedLt ==> !IsAlpha(Current())
      modifies this
      ensures Stepped(old(state), old(pos), old(emitted), r)
    {
      hide TextEnd, AfterWord, AppropriateAt, NameEnd, Consistent, Accepted, OnCourse;
      Marked(input, tagOf, lastStartTag, from, state, pos, mark, name, emitted);
      CourseRewound(input, tagOf, lastStartTag, from, state, pos, mark, name, emitted, temporary, goal);
      ReconsumeIn(text);
      r := EmitFromMark(old(state), pos);
    }

    // handle_rawtext_state, handle_script_data_state and handle_plaintext_state
    method HandleText() returns (r: Result)
      requires Ready() && (state == Rawtext || state == ScriptData || state == Plaintext)
      modifies this
      ensures Stepped(old(state), old(pos), old(emitted), r)
    {
      hide TextEnd, AfterWord, AppropriateAt, NameEnd, Consistent, Accepted, OnCourse;
      var c := Current();
      CoursePlain(input, tagOf, lastStartTag, state, pos, mark, temporary, goal);
      if c == '<' as int && state != Plaintext {
        r := OpenMark(if state == Rawtext then RawtextLt else ScriptDataLt);
      } else if c == 0 {
        r := EmitIn(REPLACEMENT, state);
      } else {
        r := EmitIn(c, state);
      }
    }

    // A possible end tag goes on with a slash.
    method ToEndTagOpen(st: LexState) returns (r: Result)
      requires Ready() && DepthOf(state) == AfterLt && Current() == '/' as int
      requires DepthOf(st) == AfterSlash
      requires OnCourse(input, tagOf, lastStartTag, st, pos, mark, temporary, goal)
      modifies this`state
      ensures Stepped(old(state), old(pos), old(emitted), r)
    {
      hide TextEnd, AfterWord, AppropriateAt, NameEnd, Consistent, Accepted;
      SlashStep(input, from, state, pos, mark, name, emitted, st);
      state := st;
      r := Continue;
    }

    // handle_rawtext_lt_state
    method HandleRawtextLt() returns (r: Result)
      requires Ready() && state == RawtextLt
      modifies this
      ensures Stepped(old(state), old(pos), old(emitted), r)
    {
      hide TextEnd, AfterWord, AppropriateAt, NameEnd, Consistent, Accepted;
      Marked(input, tagOf, lastStartTag, from, state, pos, mark, name, emitted);
      if Current() == '/' as int {
        r := ToEndTagOpen(RawtextEndTagOpen);
      } else {
        r := GiveBack(Rawtext);
      }
    }

    // '<!' in script data is emitted whole.
    method OpenComment() returns (r: Result)
      requires Ready() && state == ScriptDataLt && Current() == '!' as int
      modifies this
      ensures Stepped(old(state), old(pos), old(emitted), r)
    {
      hide TextEnd, AfterWord, AppropriateAt, NameEnd, Consistent, Accepted;
      Marked(input, tagOf, lastStartTag, from, state, pos, mark, name, emitted);
      Next();
      ReconsumeIn(EscapedStart);
      r := EmitFromMark(old(state), old(pos));
    }

    // handle_script_data_lt_state
    method HandleScriptDataLt() returns (r: Result)
      requires Ready() && state == ScriptDataLt
      modifies this
      ensures Stepped(old(state), old(pos), old(emitted), r)
    {
      hide TextEnd, AfterWord, AppropriateAt, NameEnd, Consistent, Accepted;
      Marked(input, tagOf, lastStartTag, from, state, pos, mark, name, emitted);
      if Current() == '/' as int {
        r := ToEndTagOpen(ScriptDataEndTagOpen);
      } else if Current() == '!' as int {
        r := OpenComment();
      } else {
        r := GiveBack(ScriptData);
      }
    }

    // handle_script_data_escaped_lt_state
    method HandleEscapedLt() returns (r: Result)
      requires Ready() && state == EscapedLt
      modifies this
      ensures Stepped(old(state), old(pos), old(emitted), r)
    {
      hide TextEnd, AfterWord, AppropriateAt, NameEnd, Consistent, Accepted;
      Marked(input, tagOf, lastStartTag, from, state, pos, mark, name, emitted);
      assert temporary == [];
      if pos < |input| {
        CourseEscapedLt(input, tagOf, lastStartTag, pos, mark, goal);
      }
      if Current() == '/' as int {
        r := ToEndTagOpen(EscapedEndTagOpen);
      } else if IsAlpha(Current()) {
        ReconsumeIn(DoubleEscapedStart);
        r := EmitFromMark(old(state), pos);
      } else {
        r := GiveBack(Escaped);
      }
    }

    // The end_tag_open states, with the states for a name and for text.
    method HandleEndTagOpen(nameState: LexState, text: LexState) returns (r: Result)
      requires Ready() && DepthOf(state) == AfterSlash && DepthOf(nameState) == InName && IsText(text)
      requires DepthOf(text) == Outside
      requires nameState == NameOf(state) && text == TextOf(state)
      modifies this
      ensures Stepped(old(state), old(pos), old(emitted), r)
    {
      hide TextEnd, AfterWord, AppropriateAt, NameEnd, Consistent, Accepted;
      Marked(input, tagOf, lastStartTag, from, state, pos, mark, name, emitted);
      if IsAlpha(Current()) {
        NameStart(input, from, state, pos, mark, name, emitted, nameState);
        ReconsumeIn(nameState);
        name := [];  // start_new_tag
        r := Continue;
      } else {
        r := GiveBack(text);
      }
    }

    // is_appropriate_end_tag
    function IsAppropriate(): (b: bool)
      reads this
    {
      lastStartTag != NO_TAG && lastStartTag == tagOf(name)
    }

    // The delimiter after the name of an appropriate end tag.
    method AcceptEndTag() returns (r: Result)
      requires resumePos == -1 && !reconsume && mark == goal && pos < |input| && IsDelimiter(input[pos])
      requires Accepted(input, tagOf, lastStartTag, from, mark, pos, emitted)
      modifies this`state, this`pos
      ensures Stepped(old(state), old(pos), old(emitted), r)
    {
      hide TextEnd, AfterWord, AppropriateAt, NameEnd, Consistent, Accepted, OnCourse;
      if IsSpace(input[pos]) {
        state := BeforeAttrName;
        return Continue;
      }
      if input[pos] == '/' as int {
        state := SelfClosingStartTag;
        return Continue;
      }
      state := Data;
      Next();  // emit_current_tag
      r := Emit(EndTag(lastStartTag));
    }

    // The end_tag_name states.
    method HandleEndTagName(text: LexState) returns (r: Result)
      requires Ready() && DepthOf(state) == InName && text == TextOf(state)
      modifies this
      ensures Stepped(old(state), old(pos), old(emitted), r)
    {
      hide TextEnd, AfterWord, AppropriateAt, NameEnd, Consistent, Accepted, OnCourse;
      Marked(input, tagOf, lastStartTag, from, state, pos, mark, name, emitted);
      CourseAccepted(input, tagOf, lastStartTag, state, pos, mark, temporary, goal);
      var c := Current();
      if IsAlpha(c) {
        NameMore(input, from, state, pos, mark, name, emitted);
        name := name + [LowerCode(c)];
        return Continue;
      }
      NameEnded(input, tagOf, lastStartTag, from, state, pos, mark, name, emitted);
      if IsDelimiter(c) && IsAppropriate() {
        r := AcceptEndTag();
        return;
      }
      r := GiveBack(text);
    }

    // handle_script_data_escaped_start_state and
    // handle_script_data_escaped_start_dash_state
    method HandleEscapedStart() returns (r: Result)
      requires Ready() && (state == EscapedStart || state == EscapedStartDash)
      modifies this
      ensures Stepped(old(state), old(pos), old(emitted), r)
    {
      hide TextEnd, AfterWord, AppropriateAt, NameEnd, Consistent, Accepted, OnCourse;
      CourseEscapedStart(input, tagOf, lastStartTag, state, pos, mark, temporary, goal);
      if Current() == '-' as int {
        r := EmitIn('-' as int, if state == EscapedStart then EscapedStartDash else EscapedDashDash);
      } else {
        StillOutside(input, from, state, pos, mark, name, emitted, ScriptData);
        ReconsumeIn(ScriptData);
        r := Continue;
      }
    }

    // handle_script_data_escaped_state, handle_script_data_escaped_dash_state
    // and handle_script_data_escaped_dash_dash_state
    method HandleEscaped() returns (r: Result)
      requires Ready() && (state == Escaped || state == EscapedDash || state == EscapedDashDash)
      modifies this
      ensures Stepped(old(state), old(pos), old(emitted), r)
    {
      hide TextEnd, AfterWord, AppropriateAt, NameEnd, Consistent, Accepted, OnCourse;
      var c := Current();
      CourseEscaped(input, tagOf, lastStartTag, state, pos, mark, temporary, goal);
      if c == '-' as int {
        r := EmitIn(c, if state == Escaped then EscapedDash else EscapedDashDash);
      } else if c == '<' as int {
        temporary := [];
        r := OpenMark(EscapedLt);
      } else if c == '>' as int && state == EscapedDashDash {
        r := EmitIn(c, ScriptData);
      } else if c == 0 {
        r := EmitIn(REPLACEMENT, Escaped);
      } else if c == EOF {
        r := EmitIn(c, state);
      } else {
        r := EmitIn(c, Escaped);
      }
    }

    // handle_script_data_double_escaped_start_state and
    // handle_script_data_double_escaped_end_state
    method HandleDoubleEscapedSwitch() returns (r: Result)
      requires Ready() && (state == DoubleEscapedStart || state == DoubleEscapedEnd)
      modifies this
      ensures Stepped(old(state), old(pos), old(emitted), r)
    {
      hide TextEnd, AfterWord, AppropriateAt, NameEnd, Consistent, Accepted, OnCourse;
      var c := Current();
      CourseWord(input, tagOf, lastStartTag, state, pos, mark, temporary, goal);
      if IsDelimiter(c) {
        var isScript := temporary == SCRIPT;
        r := EmitIn(c, if isScript == (state == DoubleEscapedStart) then DoubleEscaped else Escaped);
      } else if IsAlpha(c) {
        temporary := temporary + [LowerCode(c)];
        r := EmitIn(c, state);
      } else {
        var back := if state == DoubleEscapedStart then Escaped else DoubleEscaped;
        StillOutside(input, from, state, pos, mark, name, emitted, back);
        ReconsumeIn(back);
        r := Continue;
      }
    }

    // handle_script_data_double_escaped_state and its dash and dash_dash states
    method HandleDoubleEscaped() returns (r: Result)
      requires Ready() && (state == DoubleEscaped || state == DoubleEscapedDash || state == DoubleEscapedDashDash)
      modifies this
      ensures Stepped(old(state), old(pos), old(emitted), r)
    {
      hide TextEnd, AfterWord, AppropriateAt, NameEnd, Consistent, Accepted, OnCourse;
      var c := Current();
      CourseDoubleEscaped(input, tagOf, lastStartTag, state, pos, mark, temporary, goal);
      if c == '-' as int {
        r := EmitIn(c, if state == DoubleEscaped then DoubleEscapedDash else DoubleEscapedDashDash);
      } else if c == '<' as int {
        r := EmitIn(c, DoubleEscapedLt);
      } else if c == '>' as int && state == DoubleEscapedDashDash {
        r := EmitIn(c, ScriptData);
      } else if c == 0 {
        r := EmitIn(REPLACEMENT, DoubleEscaped);
      } else if c == EOF {
        r := EmitIn(c, state);
      } else {
        r := EmitIn(c, DoubleEscaped);
      }
    }

    // handle_script_data_double_escaped_lt_state
    method HandleDoubleEscapedLt() returns (r: Result)
      requires Ready() && state == DoubleEscapedLt
      modifies this
      ensures Stepped(old(state), old(pos), old(emitted), r)
    {
      hide TextEnd, AfterWord, AppropriateAt, NameEnd, Consistent, Accepted, OnCourse;
      CourseDoubleEscapedLt(input, tagOf, lastStartTag, pos, mark, temporary, goal);
      if Current() == '/' as int {
        temporary := [];
        r := EmitIn('/' as int, DoubleEscapedEnd);
      } else {
        StillOutside(input, from, state, pos, mark, name, emitted, DoubleEscaped);
        ReconsumeIn(DoubleEscaped);
        r := Continue;
      }
    }

    // dispatch_table
    method Dispatch() returns (r: Result)
      requires Ready()
      modifies this
      ensures Stepped(old(state), old(pos), old(emitted), r)
    {
      hide OnCourse, Stepped;
      match state
      case Plaintext | Rawtext | ScriptData => r := HandleText();
      case RawtextLt => r := HandleRawtextLt();
      case ScriptDataLt => r := HandleScriptDataLt();
      case EscapedLt => r := HandleEscapedLt();
      case RawtextEndTagOpen => r := HandleEndTagOpen(RawtextEndTagName, Rawtext);
      case ScriptDataEndTagOpen => r := HandleEndTagOpen(ScriptDataEndTagName, ScriptData);
      case EscapedEndTagOpen => r := HandleEndTagOpen(EscapedEndTagName, Escaped);
      case RawtextEndTagName => r := HandleEndTagName(Rawtext);
      case ScriptDataEndTagName => r := HandleEndTagName(ScriptData);
      case EscapedEndTagName => r := HandleEndTagName(Escaped);
      case EscapedStart | EscapedStartDash => r := HandleEscapedStart();
      case Escaped | EscapedDash | EscapedDashDash => r := HandleEscaped();
      case DoubleEscapedStart | DoubleEscapedEnd => r := HandleDoubleEscapedSwitch();
      case DoubleEscaped | DoubleEscapedDash | DoubleEscapedDashDash => r := HandleDoubleEscaped();
      case DoubleEscapedLt => r := HandleDoubleEscapedLt();
      case Data | BeforeAttrName | SelfClosingStartTag => assert false;
    }

    // No more is emitted than there is.
    lemma Bounded()
      requires Valid()
      ensures from + |emitted| <= |input|
    {
    }

    // The stretch of input that has been handed over as text.
    ghost predicate Ended(outcome: Outcome)
      reads this
    {
      match outcome
      case Text(c) => Valid() && emitted != [] && c == emitted[|emitted| - 1]
      case AtEof => pos == |input| == goal && from <= pos && emitted == Clean(input[from..])
      case AtEndTag =>
        && mark == goal && pos > 0 && Accepted(input, tagOf, lastStartTag, from, mark, pos - 1, emitted)
        && input[pos - 1] == '>' as int
      case AtAttributes =>
        && mark == goal && pos > 0 && Accepted(input, tagOf, lastStartTag, from, mark, pos - 1, emitted)
        && input[pos - 1] != '>' as int
    }

    // One turn of the loop of gumbo_lex: a token, or one step towards one.
    method Turn() returns (done: bool, outcome: Outcome)
      requires Ready()
      modifies this
      ensures done ==> Ended(outcome)
      ensures done ==> emitted == if outcome.Text? then old(emitted) + [outcome.c] else old(emitted)
      ensures !done ==> Ready() && emitted == old(emitted)
      ensures !done ==> pos > old(pos) || (pos == old(pos) && Rank(state) < Rank(old(state)))
    {
      hide Consistent, Pending, OnCourse, Accepted, TextEnd, AfterWord, AppropriateAt, NameEnd;
      var r := Dispatch();
      var shouldAdvance := !reconsume;
      reconsume := false;
      if r.Emit? {
        match r.token
        case Char(c) => return true, Text(c);
        case Eof => return true, AtEof;
        case EndTag(_) => return true, AtEndTag;
      }
      if shouldAdvance {
        Next();
      }
      return !IsText(state), AtAttributes;
    }

    // gumbo_lex, up to the point where the attribute states take over.
    method Lex() returns (outcome: Outcome)
      requires Valid()
      modifies this
      ensures Ended(outcome)
      ensures emitted == if outcome.Text? then old(emitted) + [outcome.c] else old(emitted)
    {
      hide Consistent, Pending, OnCourse, Accepted, TextEnd, AfterWord, AppropriateAt, NameEnd;
      var r := MaybeEmitFromMark();
      if r.Emit? {
        return Text(r.token.c);
      }
      while true
        invariant Ready() && emitted == old(emitted)
        decreases |input| - pos, Rank(state)
      {
        var done, end := Turn();
        if done {
          return end;
        }
      }
    }
  }

  // All character tokens of one run, from the state that tree construction sets
  // to the end of the text: nothing is lost, repeated or reordered.
  method ReadText(input: seq<int>, from: nat, tagOf: seq<int> -> int, lastStartTag: int, state: LexState)
    returns (text: seq<int>, outcome: Outcome)
    requires from <= |input| && (state == Plaintext || state == Rawtext || state == ScriptData)
    requires forall i :: 0 <= i < |input| ==> input[i] >= 0
    ensures var e := TextEnd(input, tagOf, lastStartTag, from, ModeOf(state));
            && text == Clean(input[from..e])
            && (outcome == AtEof <==> e == |input|) && !outcome.Text?
  {
    hide TextEnd, AppropriateAt, NameEnd, Consistent, Pending, OnCourse;
    var lexer := new Lexer(input, from, tagOf, lastStartTag, state);
    text := [];
    while true
      invariant lexer.Valid() && text == lexer.emitted && fresh(lexer)
      invariant lexer.input == input && lexer.from == from && lexer.tagOf == tagOf && lexer.lastStartTag == lastStartTag
      invariant lexer.goal == TextEnd(input, tagOf, lastStartTag, from, ModeOf(state))
      decreases |input| - |text|
    {
      outcome := lexer.Lex();
      if !outcome.Text? {
        break;
      }
      text := text + [outcome.c];
      lexer.Bounded();
    }
    assert input[from..] == input[from..|input|];
  }
}
