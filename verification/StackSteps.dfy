/** What one token does to the stack of open elements in the body and select
    modes of gumbo-parser/src/parser.c, told by positions on the stack. */
module StackSteps {
  import opened OpenTags
  import opened InsertionModes

  // The stack without the element on top if that is an e.
  function Without(open: seq<Elem>, e: Elem): (r: seq<Elem>)
  {
    if open != [] && Top(open) == e then open[..|open| - 1] else open
  }

  // The stack below the last e if that is in scope.
  function Below(open: seq<Elem>, e: Elem, scope: Scope): (r: seq<Elem>)
  {
    if InScope(open, e, scope) then open[..Last(open, e)] else open
  }

  // Any other end tag: the stack is cut at the last e if no special element lies
  // above it, or stays.
  ghost predicate AnyOther(open0: seq<Elem>, e: Elem, open: seq<Elem>)
  {
    || (exists k :: 0 <= k < |open0| && open0[k] == e && open == open0[..k]
                    && forall j :: k < j < |open0| ==> open0[j] != e && !IsSpecial(open0[j]))
    || (open == open0
        && forall i :: 0 <= i < |open0| && open0[i] == e ==> exists j :: i < j < |open0| && IsSpecial(open0[j]))
  }

  // A template start or end tag.
  predicate TemplateSays(start: bool, open0: seq<Elem>, m0: Mode, open: seq<Elem>, m: Mode)
  {
    if start then open == open0 + [Template] && m == InTemplate
    else if Last(open0, Template) >= 0 then open == open0[..Last(open0, Template)]
    else open == open0 && m == m0
  }

  // The rules of the body.
  ghost predicate BodySays(t: Token, quirks: bool, open0: seq<Elem>, m0: Mode, open: seq<Elem>, m: Mode)
  {
    match t
    case Start(e) => BodyStartSays(e, quirks, open0, m0, open, m)
    case End(e) => BodyEndSays(e, open0, m0, open, m)
    case Eof => true
    case _ => open == open0 && m == m0
  }

  ghost predicate BodyStartSays(e: Elem, quirks: bool, open0: seq<Elem>, m0: Mode, open: seq<Elem>, m: Mode)
  {
    match e
    case P | Div => open == Below(open0, P, DefaultScope) + [e] && m == m0
    case Table => open == (if quirks then open0 else Below(open0, P, DefaultScope)) + [Table] && m == InTable
    case Select => open == open0 + [Select] && m == if m0 == InBody then InSelect else InSelectInTable
    case Option | Optgroup => open == Without(open0, Option) + [e] && m == m0
    case Span => open == open0 + [Span] && m == m0
    case Template => TemplateSays(true, open0, m0, open, m)
    case _ => open == open0 && m == m0
  }

  ghost predicate BodyEndSays(e: Elem, open0: seq<Elem>, m0: Mode, open: seq<Elem>, m: Mode)
  {
    match e
    case Template => TemplateSays(false, open0, m0, open, m)
    case Body | Html => open == open0 && m == if InScope(open0, Body, DefaultScope) then AfterBody else m0
    case P | Div => open == Below(open0, e, DefaultScope) && m == m0
    case _ => AnyOther(open0, e, open) && m == m0
  }

  // The rules of a select; `again` when the token is reprocessed.
  predicate SelectSays(t: Token, open0: seq<Elem>, m0: Mode, open: seq<Elem>, m: Mode, again: bool)
  {
    if m0 == InSelectInTable && t.Start? && IsTablePart(t.e) then open == Below(open0, Select, SelectScope) && again
    else if m0 == InSelectInTable && t.End? && IsTablePart(t.e) then
      if InScope(open0, t.e, TableScope) then open == Below(open0, Select, SelectScope) && again
      else open == open0 && m == m0 && !again
    else SelectRules(t, open0, m0, open, m, again)
  }

  predicate SelectRules(t: Token, open0: seq<Elem>, m0: Mode, open: seq<Elem>, m: Mode, again: bool)
  {
    match t
    case Start(e) => SelectStartSays(e, open0, m0, open, m, again)
    case End(e) => SelectEndSays(e, open0, m0, open, m) && !again
    case Eof => true
    case _ => open == open0 && m == m0 && !again
  }

  predicate IsTablePart(e: Elem)
  {
    e == Caption || e == Table || IsSection(e) || e == Tr || IsCell(e)
  }

  predicate SelectStartSays(e: Elem, open0: seq<Elem>, m0: Mode, open: seq<Elem>, m: Mode, again: bool)
  {
    match e
    case Option => open == Without(open0, Option) + [Option] && m == m0 && !again
    case Optgroup => open == Without(Without(open0, Option), Optgroup) + [Optgroup] && m == m0 && !again
    case Select | Input =>
      if InScope(open0, Select, SelectScope) then open == open0[..Last(open0, Select)] && again == (e == Input)
      else open == open0 && m == m0 && !again
    case Template => TemplateSays(true, open0, m0, open, m) && !again
    case _ => open == open0 && m == m0 && !again
  }

  predicate SelectEndSays(e: Elem, open0: seq<Elem>, m0: Mode, open: seq<Elem>, m: Mode)
  {
    match e
    case Option => open == Without(open0, Option) && m == m0
    case Optgroup =>
      m == m0
      && open == if |open0| > 1 && open0[|open0| - 2..] == [Optgroup, Option] then open0[..|open0| - 2]
                 else Without(open0, Optgroup)
    case Select => if InScope(open0, Select, SelectScope) then open == open0[..Last(open0, Select)]
                   else open == open0 && m == m0
    case Template => TemplateSays(false, open0, m0, open, m)
    case _ => open == open0 && m == m0
  }

  // Tags that the modes inside a table leave to the rules of the body.
  predicate IsContent(t: Token)
  {
    || (t.Start? && (t.e == P || t.e == Div || t.e == Span || t.e == Select || t.e == Option || t.e == Optgroup))
    || (t.End? && (t.e == P || t.e == Div || t.e == Span || t.e == Select || t.e == Option || t.e == Optgroup))
  }

  // One step from the stack open0 in mode m0.
  ghost predicate StepSays(t: Token, quirks: bool, open0: seq<Elem>, m0: Mode, open: seq<Elem>, m: Mode, again: bool)
  {
    && (t != Eof && (m0 == InBody || (TakesContent(m0) && IsContent(t))) ==>
          BodySays(t, quirks, open0, m0, open, m) && (again ==> t == End(Html)))
    && (t != Eof && (m0 == InSelect || m0 == InSelectInTable) ==> SelectSays(t, open0, m0, open, m, again))
  }

  // Tokens that are never reprocessed in the mode.
  predicate OnceOnly(t: Token, m: Mode)
  {
    && t != Eof
    && if m == InBody then t != End(Html)
       else if m == InSelect then t != Start(Input)
       else if m == InSelectInTable then t != Start(Input) && !((t.Start? || t.End?) && IsTablePart(t.e))
       else TakesContent(m) && IsContent(t)
  }

  lemma OnceIsDone(t: Token, quirks: bool, open0: seq<Elem>, m0: Mode, open: seq<Elem>, m: Mode, again: bool)
    requires OnceOnly(t, m0) && StepSays(t, quirks, open0, m0, open, m, again)
    ensures !again
  {
  }

  // Which elements the rules of the body and of the scopes are about.
  lemma Classes(e: Elem)
    ensures EndsScope(e) <==> e in {Html, Table, Td, Th, Caption, Template}
    ensures !IsSpecial(e) <==> e in {Option, Optgroup, Span}
    ensures HasImpliedEnd(e) <==> e in {Option, Optgroup, P}
  {
  }
}
