/** Insertion modes and the measure that reprocessing a token lowers, for the
    table, select and template modes of gumbo-parser/src/parser.c. */
module InsertionModes {
  import opened OpenTags

  datatype Token = Start(e: Elem) | End(e: Elem) | Character | Whitespace | Null | Comment | Doctype | Eof

  predicate IsText(t: Token)
  {
    t == Character || t == Whitespace || t == Null
  }

  // caption, colgroup, the sections, tr and the cells.
  predicate IsPart(e: Elem)
  {
    e == Caption || e == Colgroup || IsSection(e) || e == Tr || IsCell(e)
  }

  // The mode after the part of a table is opened, and after it is closed.
  function Inside(e: Elem): (m: Mode)
    requires IsPart(e)
  {
    if e == Caption then InCaption
    else if e == Colgroup then InColumnGroup
    else if IsSection(e) then InTableBody
    else if e == Tr then InRow
    else InCell
  }

  function Outside(e: Elem): (m: Mode)
    requires IsPart(e)
    ensures NeedsContext(m)
  {
    if IsCell(e) then InRow else if e == Tr then InTableBody else InTable
  }

  // The mode has a rule that inserts an element on the way to the token's own.
  predicate Opens(t: Token, m: Mode)
  {
    match m
    case InTable => t == Start(Col) || t == Start(Tr) || t == Start(Td) || t == Start(Th)
    case InTableBody => t == Start(Tr) || t == Start(Td) || t == Start(Th)
    case InRow => t == Start(Td) || t == Start(Th)
    case InColumnGroup => t == Start(Col)
    case _ => false
  }

  // Reprocessing a token lowers this triple: elements are closed first, then the
  // elements that are missing are opened.
  function Phase(t: Token, m: Mode): (p: nat)
  {
    if Opens(t, m) then 0 else if m == InTableText && !IsText(t) then 2 else 1
  }

  function Depth(t: Token, m: Mode, length: nat): (d: nat)
  {
    if Phase(t, m) == 1 then length else 0
  }

  function Step(t: Token, m: Mode): (s: nat)
  {
    if Opens(t, m) then (if m == InTable then 2 else if m == InTableBody then 1 else 0)
    else
      match m
      case InTable | InTableBody | InRow => if IsText(t) then 1 else 0
      case InTemplate => 1
      case AfterAfterBody => 2
      case InBody => if t == End(Html) then 1 else 0
      case AfterBody => if t == End(Html) then 0 else 1
      case _ => 0
  }

  predicate Lower(t: Token, m': Mode, length': nat, m: Mode, length: nat)
  {
    || Phase(t, m') < Phase(t, m)
    || (Phase(t, m') == Phase(t, m) && Depth(t, m', length') < Depth(t, m, length))
    || (Phase(t, m') == Phase(t, m) && Depth(t, m', length') == Depth(t, m, length) && Step(t, m') < Step(t, m))
  }

  // Closing elements makes progress, unless the mode opens them.
  lemma ShorterIsLower(t: Token, m': Mode, length': nat, m: Mode, length: nat)
    requires length' < length && m != InTableText && m' != InTableText && !Opens(t, m)
    ensures Lower(t, m', length', m, length)
  {
  }

  // The modes a template can be in.
  predicate IsTemplateMode(m: Mode)
  {
    m == InTemplate || m == InTable || m == InColumnGroup || m == InTableBody || m == InRow || m == InBody
  }

  // The mode in which a template takes its first start tag.
  function TemplateModeFor(e: Elem): (m: Mode)
    ensures IsTemplateMode(m) && m != InTemplate
  {
    if e == Caption || e == Colgroup || IsSection(e) then InTable
    else if e == Col then InColumnGroup
    else if e == Tr then InTableBody
    else if IsCell(e) then InRow
    else InBody
  }

  lemma SwitchIsLower(t: Token, m: Mode, length: nat)
    requires t.Start? && m == TemplateModeFor(t.e)
    ensures Lower(t, m, length, InTemplate, length)
  {
  }

  // The modes whose rules for other elements are those of the body.
  predicate TakesContent(m: Mode)
  {
    || m == InBody || m == InTable || m == InTableBody || m == InRow || m == InCell || m == InCaption
  }

  // get_appropriate_insertion_mode
  function Appropriate(fragment: bool, context: Elem, open: seq<Elem>, templateModes: seq<Mode>, i: nat): (m: Mode)
    requires i < |open|
  {
    var isLast := i == 0;
    var e := if isLast && fragment then context else open[i];
    match e
    case Select => if isLast then InSelect else SelectMode(open, i)
    case Td | Th => if isLast then InBody else InCell
    case Tr => InRow
    case Tbody | Thead | Tfoot => InTableBody
    case Caption => InCaption
    case Colgroup => InColumnGroup
    case Table => InTable
    case Template => if templateModes == [] then Initial else templateModes[|templateModes| - 1]
    case Body => InBody
    case _ => if isLast then InBody else Initial
  }

  // A select below a table, with no template between them.
  function SelectMode(open: seq<Elem>, i: nat): (m: Mode)
    requires i < |open|
    ensures m == InSelect || m == InSelectInTable
  {
    if i == 0 || open[i] == Template then InSelect
    else if open[i] == Table then InSelectInTable
    else SelectMode(open, i - 1)
  }

  // The mode that the search from the top of the stack finds.
  predicate IsReset(fragment: bool, context: Elem, open: seq<Elem>, templateModes: seq<Mode>, m: Mode)
  {
    m != Initial
    && exists i :: 0 <= i < |open| && m == Appropriate(fragment, context, open, templateModes, i)
         && forall j :: i < j < |open| ==> Appropriate(fragment, context, open, templateModes, j) == Initial
  }

  // As many template modes as template elements, the context element included.
  ghost predicate Counted(fragment: bool, context: Elem, open: seq<Elem>, templateModes: seq<Mode>)
  {
    && |templateModes| == Templates(open) + (if fragment && context == Template then 1 else 0)
    && forall i :: 0 <= i < |templateModes| ==> IsTemplateMode(templateModes[i])
  }

  // The mode suits the stack.
  ghost predicate Fits(fragment: bool, open: seq<Elem>, templateModes: seq<Mode>, m: Mode, original: Mode)
    requires open != []
  {
    && m != Initial
    && (InChain(open, |open| - 1) ==> m == InSelect || m == InSelectInTable)
    && (m == InSelectInTable ==> InChain(open, |open| - 1))
    && (Top(open) == Colgroup ==> m == InColumnGroup)
    && (IsGoverned(m) ==> Governed(fragment, m, open))
    && (m == InTableText ==> NeedsContext(original) && Governed(fragment, original, open))
    && (m == InTemplate ==> templateModes != [])
    && (m == AfterBody || m == AfterAfterBody ==> !fragment && Template !in open)
  }

  // Elements that the search passes have no mode of their own.
  lemma PassedOver(fragment: bool, context: Elem, open: seq<Elem>, templateModes: seq<Mode>, j: nat)
    requires Shaped(fragment, open) && Counted(fragment, context, open, templateModes) && 0 < j < |open|
    requires Appropriate(fragment, context, open, templateModes, j) == Initial
    ensures !IsStructural(open[j])
  {
    TemplatesOpen(open);
    assert open[j] in open;
    assert Placed(open, j);
  }

  // The mode at the element where the search ends.
  lemma FoundMode(fragment: bool, context: Elem, open: seq<Elem>, templateModes: seq<Mode>, i: nat)
    requires Shaped(fragment, open) && Counted(fragment, context, open, templateModes) && i < |open|
    requires fragment ==> context != Html
    ensures var m := Appropriate(fragment, context, open, templateModes, i);
            && m != InTableText && m != AfterBody && m != AfterAfterBody
            && (m == InSelectInTable ==> i > 0)
            && (m == InTemplate ==> templateModes != [])
            && (IsGoverned(m) ==> Governs(m, open[i]) || (i == 0 && fragment && m != InCell))
  {
    HtmlAtBottom(fragment, open);
    hide Shaped, Templates;
  }

  lemma TemplateMode(fragment: bool, context: Elem, open: seq<Elem>, templateModes: seq<Mode>, i: nat)
    requires Counted(fragment, context, open, templateModes) && 0 < i < |open| && open[i] == Template
    ensures Appropriate(fragment, context, open, templateModes, i) != InSelectInTable
  {
  }

  lemma FoundChain(fragment: bool, context: Elem, open: seq<Elem>, templateModes: seq<Mode>, i: nat)
    requires 0 < i < |open|
    ensures var m := Appropriate(fragment, context, open, templateModes, i);
            && (InChain(open, i) ==> m == InSelect || m == InSelectInTable || m == Initial)
            && (m == InSelectInTable ==> InChain(open, i) || open[i] == Template)
            && (open[i] == Colgroup ==> m == InColumnGroup)
  {
  }

  // Where the search from the top ends.
  lemma ResetFits(fragment: bool, context: Elem, open: seq<Elem>, templateModes: seq<Mode>, i: nat, original: Mode)
    requires Shaped(fragment, open) && Counted(fragment, context, open, templateModes) && i < |open|
    requires fragment ==> context != Html
    requires forall j :: i < j < |open| ==> Appropriate(fragment, context, open, templateModes, j) == Initial
    requires var m := Appropriate(fragment, context, open, templateModes, i); m != Initial
    ensures Fits(fragment, open, templateModes, Appropriate(fragment, context, open, templateModes, i), original)
    ensures Appropriate(fragment, context, open, templateModes, i) != InTableText
  {
    hide Shaped, Counted, Appropriate, InChain, Governs;
    HtmlAtBottom(fragment, open);
    var m := Appropriate(fragment, context, open, templateModes, i);
    FoundMode(fragment, context, open, templateModes, i);
    if i > 0 {
      FoundChain(fragment, context, open, templateModes, i);
      if open[i] == Template { TemplateMode(fragment, context, open, templateModes, i); }
    }
    forall j | i < j < |open| ensures !IsStructural(open[j]) {
      PassedOver(fragment, context, open, templateModes, j);
    }
    assert IsGoverned(m) ==> GovernedBy(fragment, m, open, i);
    if i > 0 {
      ChainFrom(fragment, open, i);
    } else {
      NoChain(fragment, open);
    }
  }

  lemma HtmlAtBottom(fragment: bool, open: seq<Elem>)
    requires Shaped(fragment, open)
    ensures open != [] && open[0] == Html
  {
  }

  lemma BodyStays(fragment: bool, open: seq<Elem>, k: nat)
    requires Shaped(fragment, open) && 0 < k < |open| && open[k] != Body
    ensures (if fragment then 1 else 2) <= k
  {
  }

  // Popping elements other than templates keeps the stack sound.
  lemma PrefixSound(fragment: bool, context: Elem, open: seq<Elem>, templateModes: seq<Mode>, k: nat)
    requires Shaped(fragment, open) && Counted(fragment, context, open, templateModes)
    requires (if fragment then 1 else 2) <= k <= |open| && forall j :: k <= j < |open| ==> open[j] != Template
    ensures Shaped(fragment, open[..k]) && Counted(fragment, context, open[..k], templateModes)
  {
    ShapedPrefix(fragment, open, k);
    TemplatesBelow(open, k);
  }

  lemma PushSound(fragment: bool, context: Elem, open: seq<Elem>, templateModes: seq<Mode>, e: Elem)
    requires Shaped(fragment, open) && Counted(fragment, context, open, templateModes)
    requires e != Html && e != Col && e != Input && e != Body && MayHold(Top(open), e)
    requires InChain(open, |open| - 1) ==> MayFollow(Top(open), e)
    requires Top(open) == Colgroup ==> e == Template
    ensures Shaped(fragment, open + [e])
    ensures Counted(fragment, context, open + [e],
              if e == Template then templateModes + [InTemplate] else templateModes)
  {
    hide Placed, InChain, Counted;
    ShapedPush(fragment, open, e);
    CountedPush(fragment, context, open, templateModes, e);
  }

  lemma CountedPush(fragment: bool, context: Elem, open: seq<Elem>, templateModes: seq<Mode>, e: Elem)
    requires Counted(fragment, context, open, templateModes)
    ensures Counted(fragment, context, open + [e],
              if e == Template then templateModes + [InTemplate] else templateModes)
  {
    assert (open + [e])[..|open|] == open;
  }

  lemma ContextKnown(fragment: bool, open: seq<Elem>, templateModes: seq<Mode>, m: Mode, original: Mode)
    requires open != [] && Fits(fragment, open, templateModes, m, original) && NeedsContext(m)
    ensures Governed(fragment, m, open)
  {
  }

  // Clearing the stack back to a context, which is there.
  lemma ContextLeft(fragment: bool, open: seq<Elem>, m: Mode, k: nat)
    requires Shaped(fragment, open) && NeedsContext(m) && Governed(fragment, m, open) && 0 < k <= |open|
    requires IsContext(m, open[k - 1]) || open[k - 1] == Html
    requires forall j :: k <= j < |open| ==> !IsContext(m, open[j])
    ensures (if fragment then 1 else 2) <= k && (!fragment ==> IsContext(m, open[k - 1]))
    ensures !InChain(open[..k], k - 1)
  {
    var c: nat :| GovernedBy(fragment, m, open, c);
    if k > 1 { assert Placed(open, k - 1); }
  }

  lemma LastTemplate(fragment: bool, open: seq<Elem>)
    requires Shaped(fragment, open) && Template in open
    ensures Last(open, Template) >= if fragment then 1 else 2
  {
    var i :| 0 <= i < |open| && open[i] == Template;
    assert i <= Last(open, Template);
  }

  lemma TemplateClosed(fragment: bool, context: Elem, open: seq<Elem>, templateModes: seq<Mode>, k: nat)
    requires Shaped(fragment, open) && Counted(fragment, context, open, templateModes)
    requires k == Last(open, Template) && k >= if fragment then 1 else 2
    ensures |templateModes| > 0 && Shaped(fragment, open[..k])
    ensures Counted(fragment, context, open[..k], templateModes[..|templateModes| - 1])
  {
    ShapedPrefix(fragment, open, k);
    TemplatesBelow(open, k + 1);
    assert open[..k + 1][..k] == open[..k];
  }

  lemma NewTop(open: seq<Elem>, e: Elem)
    requires e != Select && e != Option && e != Optgroup
    ensures !InChain(open + [e], |open|)
  {
  }

  lemma StillOpen(open: seq<Elem>, left: seq<Elem>)
    requires |left| <= |open| && left == open[..|left|] && Template in open
    requires forall j :: |left| <= j < |open| ==> HasThoroughEnd(open[j])
    ensures Template in left
  {
    var i :| 0 <= i < |open| && open[i] == Template;
    assert left[i] == Template;
  }

  // Below an element that is no option there is no chain.
  lemma BelowChain(fragment: bool, open: seq<Elem>, k: nat)
    requires Shaped(fragment, open) && 0 < k < |open| && open[k] != Template
    requires (open[k] != Option && open[k] != Optgroup) || !InChain(open, k)
    ensures !InChain(open[..k], k - 1)
  {
    assert Placed(open, k);
    ChainPrefix(open, k, k - 1);
  }

  lemma NotInChain(open: seq<Elem>, k: nat)
    requires k < |open| && open[k] != Select && open[k] != Option && open[k] != Optgroup
    ensures !InChain(open, k)
  {
  }

  lemma SameLast(open: seq<Elem>, left: seq<Elem>, e: Elem)
    requires |left| <= |open| && left == open[..|left|] && forall j :: |left| <= j < |open| ==> open[j] != e
    ensures Last(left, e) == Last(open, e)
  {
    var i, j := Last(open, e), Last(left, e);
    if i >= 0 { assert left[i] == e; }
    if j >= 0 { assert open[j] == e; }
  }

  lemma TopInScope(open: seq<Elem>, e: Elem, scope: Scope)
    ensures InScope(open + [e], e, scope)
  {
  }

  lemma LastPushed(open: seq<Elem>, e: Elem)
    ensures Last(open + [e], e) == |open| && (open + [e])[..|open|] == open
  {
  }

  lemma GovernedKept(fragment: bool, m: Mode, open: seq<Elem>, e: Elem)
    requires Governed(fragment, m, open) && !IsStructural(e)
    ensures Governed(fragment, m, open + [e])
  {
    var c: nat :| GovernedBy(fragment, m, open, c);
    assert GovernedBy(fragment, m, open + [e], c);
  }

  lemma GovernedLeft(fragment: bool, m: Mode, open: seq<Elem>, k: nat)
    requires Governed(fragment, m, open) && 0 < k <= |open| && forall j :: k <= j < |open| ==> !IsStructural(open[j])
    requires IsGoverned(m)
    ensures Governed(fragment, m, open[..k])
  {
    var c: nat :| GovernedBy(fragment, m, open, c);
    assert c > 0 ==> IsStructural(open[c]);
    assert GovernedBy(fragment, m, open[..k], c);
  }

  // Popping elements that are not structural keeps the mode.
  lemma DroppedFits(fragment: bool, open: seq<Elem>, templateModes: seq<Mode>, m: Mode, original: Mode, k: nat)
    requires Shaped(fragment, open) && Fits(fragment, open, templateModes, m, original) && TakesContent(m)
    requires 0 < k < |open| && open[k] != Template && !InChain(open, k)
    requires IsGoverned(m) ==> forall j :: k <= j < |open| ==> !IsStructural(open[j])
    ensures Fits(fragment, open[..k], templateModes, m, original)
  {
    BelowChain(fragment, open, k);
    assert Placed(open, k);
    hide Shaped, Governed, InChain, MayHold;
    if IsGoverned(m) { GovernedLeft(fragment, m, open, k); }
  }

  // Closing a p or a div that is in scope.
  lemma ClosedFits(fragment: bool, open: seq<Elem>, templateModes: seq<Mode>, m: Mode, original: Mode, e: Elem)
    requires Shaped(fragment, open) && Fits(fragment, open, templateModes, m, original) && (e == P || e == Div)
    requires InScope(open, e, DefaultScope) && TakesContent(m)
    ensures Last(open, e) > 0 && Fits(fragment, open[..Last(open, e)], templateModes, m, original)
  {
    hide Governed, Shaped, InChain;
    var k := Last(open, e);
    HtmlAtBottom(fragment, open);
    NotInChain(open, k);
    forall j | k < j < |open| ensures !EndsScope(open[j]) {
      assert !Stops(DefaultScope, open[j]);
    }
    PlainAbove(fragment, open, k);
    DroppedFits(fragment, open, templateModes, m, original, k);
  }

  // Any other end tag pops elements that are not special, and its own.
  lemma EndedFits(fragment: bool, open: seq<Elem>, templateModes: seq<Mode>, m: Mode, original: Mode, e: Elem, k: nat)
    requires Shaped(fragment, open) && Fits(fragment, open, templateModes, m, original) && k < |open| && open[k] == e
    requires TakesContent(m) && e != Html && e != Body && e != Template
    requires (IsGoverned(m) && IsStructural(e) ==> e == Select)
    requires forall j :: k < j < |open| ==> open[j] != e && !IsSpecial(open[j])
    ensures k == Last(open, e) && k > 0 && (forall j :: k < j < |open| ==> open[j] != Template)
    ensures Fits(fragment, open[..k], templateModes, m, original)
  {
    hide Shaped, Governed, Last;
    HtmlAtBottom(fragment, open);
    LastIs(open, e, k);
    forall j | k < j < |open| ensures !IsStructural(open[j]) {
      assert !IsSpecial(open[j]);
    }
    ChainFrom(fragment, open, k);
    DroppedFits(fragment, open, templateModes, m, original, k);
  }

  lemma OptionFits(fragment: bool, open: seq<Elem>, templateModes: seq<Mode>, m: Mode, original: Mode)
    requires Shaped(fragment, open) && Fits(fragment, open, templateModes, m, original) && Top(open) == Option
    requires TakesContent(m)
    ensures |open| > 1 && Fits(fragment, open[..|open| - 1], templateModes, m, original)
  {
    hide Shaped, Governed, InChain;
    HtmlAtBottom(fragment, open);
    DroppedFits(fragment, open, templateModes, m, original, |open| - 1);
  }

  lemma PushedFits(fragment: bool, open: seq<Elem>, templateModes: seq<Mode>, m: Mode, original: Mode, e: Elem)
    requires Shaped(fragment, open) && Fits(fragment, open, templateModes, m, original)
    requires TakesContent(m) && !IsStructural(e)
    ensures !InChain(open, |open| - 1) && Top(open) != Colgroup
    ensures Fits(fragment, open + [e], templateModes, m, original)
  {
    hide Governed;
    ChainPrefix(open + [e], |open|, |open| - 1);
    assert (open + [e])[..|open|] == open;
    if IsGoverned(m) { GovernedKept(fragment, m, open, e); }
  }

  lemma TableFits(fragment: bool, open: seq<Elem>, templateModes: seq<Mode>, m: Mode, original: Mode)
    requires Shaped(fragment, open) && Fits(fragment, open, templateModes, m, original) && TakesContent(m)
    ensures !InChain(open, |open| - 1) && Top(open) != Colgroup
    ensures Fits(fragment, open + [Table], templateModes, InTable, original)
  {
    assert GovernedBy(fragment, InTable, open + [Table], |open|);
  }

  lemma SelectFits(fragment: bool, open: seq<Elem>, templateModes: seq<Mode>, m: Mode, original: Mode)
    requires Shaped(fragment, open) && Fits(fragment, open, templateModes, m, original) && TakesContent(m)
    ensures !InChain(open, |open| - 1) && Top(open) != Colgroup
    ensures Fits(fragment, open + [Select], templateModes, InSelectInTable, original)
    ensures Fits(fragment, open + [Select], templateModes, InSelect, original)
  {
  }

  lemma TemplateFits(fragment: bool, context: Elem, open: seq<Elem>, templateModes: seq<Mode>, m: Mode, original: Mode)
    requires Shaped(fragment, open) && Counted(fragment, context, open, templateModes)
    requires Fits(fragment, open, templateModes, InTemplate, original) && IsTemplateMode(m) && m != InTemplate
    ensures var modes := templateModes[..|templateModes| - 1] + [m];
            Counted(fragment, context, open, modes) && Fits(fragment, open, modes, m, original)
  {
    hide Shaped;
    TemplatesOpen(open);
    TemplateGoverns(fragment, open, m);
  }

  lemma TemplateGoverns(fragment: bool, open: seq<Elem>, m: Mode)
    requires Governed(fragment, InTemplate, open) && IsTemplateMode(m) && m != InTemplate
    ensures IsGoverned(m) ==> Governed(fragment, m, open)
  {
    hide Shaped, InChain;
    var c: nat :| GovernedBy(fragment, InTemplate, open, c);
    assert IsGoverned(m) ==> GovernedBy(fragment, m, open, c);
  }

  lemma TemplateOpened(fragment: bool, open: seq<Elem>, templateModes: seq<Mode>, original: Mode)
    requires open != []
    ensures Fits(fragment, open + [Template], templateModes + [InTemplate], InTemplate, original)
  {
    NewTop(open, Template);
    assert GovernedBy(fragment, InTemplate, open + [Template], |open|);
  }

  lemma NoTemplateLeft(fragment: bool, context: Elem, open: seq<Elem>, templateModes: seq<Mode>)
    requires Counted(fragment, context, open, templateModes) && templateModes == []
    ensures Template !in open
  {
    TemplatesOpen(open);
  }

  // A part of a table has been opened.
  lemma PartOpened(fragment: bool, open: seq<Elem>, templateModes: seq<Mode>, e: Elem, original: Mode)
    requires IsPart(e) && open != []
    ensures Fits(fragment, open + [e], templateModes, Inside(e), original)
  {
    assert GovernedBy(fragment, Inside(e), open + [e], |open|);
    NewTop(open, e);
  }

  lemma NeedsContextFor(e: Elem)
    requires IsPart(e)
    ensures NeedsContext(Outside(e))
  {
  }

  lemma PartFits(e: Elem, below: Elem)
    requires IsPart(e) && (IsContext(Outside(e), below) || below == Html)
    ensures MayHold(below, e) && below != Colgroup
    ensures e != Html && e != Col && e != Input && e != Body && e != Template
  {
  }

  lemma CellOrCaption(e: Elem)
    requires e == Caption || IsCell(e)
    ensures IsPart(e)
  {
  }

  // A part of a table has been closed.
  lemma PartClosed(fragment: bool, open: seq<Elem>, templateModes: seq<Mode>, k: nat, original: Mode)
    requires Shaped(fragment, open) && 0 < k < |open| && IsPart(open[k])
    ensures Fits(fragment, open[..k], templateModes, Outside(open[k]), original)
  {
    hide Shaped, InChain, Governs, IsPart, Outside;
    PartBelow(fragment, open, k);
    BelowChain(fragment, open, k);
    assert GovernedBy(fragment, Outside(open[k]), open[..k], k - 1);
  }

  lemma PartBelow(fragment: bool, open: seq<Elem>, k: nat)
    requires Shaped(fragment, open) && 0 < k < |open| && IsPart(open[k])
    ensures open[k] != Template && open[k] != Option && open[k] != Optgroup && open[k - 1] != Colgroup
    ensures NeedsContext(Outside(open[k])) && (Governs(Outside(open[k]), open[k - 1]) || (k == 1 && fragment))
  {
    assert Placed(open, k);
    if k > 1 { assert Placed(open, k - 1); }
  }

  // Clearing back to a context finds the part that is in table scope, or one of its kind.
  lemma PartOnTop(open: seq<Elem>, e: Elem, n: nat)
    requires (IsSection(e) || e == Tr) && InScope(open, e, TableScope) && 0 < n <= |open|
    requires IsContext(Inside(e), open[n - 1]) || open[n - 1] == Html
    requires forall j :: n <= j < |open| ==> !IsContext(Inside(e), open[j])
    ensures open[n - 1] != Html && open[n - 1] != Body && open[n - 1] != Template
    ensures IsPart(open[n - 1]) && Outside(open[n - 1]) == Outside(e) && IsContext(Inside(e), open[n - 1])
  {
    assert Last(open, e) < n;
    assert Last(open, e) < n - 1 ==> !Stops(TableScope, open[n - 1]);
  }

  // body in scope means that no template is open, and that this is no fragment.
  lemma BodyFits(fragment: bool, open: seq<Elem>, templateModes: seq<Mode>, m: Mode, original: Mode)
    requires Shaped(fragment, open) && Fits(fragment, open, templateModes, m, original) && TakesContent(m)
    requires InScope(open, Body, DefaultScope)
    ensures |open| > 1 && open[1] == Body && Fits(fragment, open, templateModes, AfterBody, original)
  {
    hide Governed, InChain;
    BodyInScope(fragment, open);
  }

  lemma BodyInScope(fragment: bool, open: seq<Elem>)
    requires Shaped(fragment, open) && InScope(open, Body, DefaultScope)
    ensures !fragment && |open| > 1 && open[1] == Body && Template !in open
  {
    var k := Last(open, Body);
    assert k == 1;
    forall j | 0 <= j < |open| ensures open[j] != Template {
      assert j > k ==> !Stops(DefaultScope, open[j]);
    }
  }

  // The options of a select come and go in its modes.
  lemma SelectPushed(fragment: bool, open: seq<Elem>, templateModes: seq<Mode>, m: Mode, original: Mode, e: Elem)
    requires Shaped(fragment, open) && Fits(fragment, open, templateModes, m, original)
    requires (m == InSelect || m == InSelectInTable) && (e == Option || e == Optgroup)
    ensures Top(open) != Colgroup && Fits(fragment, open + [e], templateModes, m, original)
  {
    OptionInChain(open, e);
    hide Shaped, Governed, InChain;
  }

  lemma OptionInChain(open: seq<Elem>, e: Elem)
    requires open != [] && (e == Option || e == Optgroup)
    ensures InChain(open + [e], |open|) == InChain(open, |open| - 1)
  {
    assert (open + [e])[..|open|] == open;
    ChainPrefix(open + [e], |open|, |open| - 1);
  }

  lemma SelectPopped(fragment: bool, open: seq<Elem>, templateModes: seq<Mode>, m: Mode, original: Mode)
    requires Shaped(fragment, open) && Fits(fragment, open, templateModes, m, original)
    requires (m == InSelect || m == InSelectInTable) && (Top(open) == Option || Top(open) == Optgroup)
    ensures |open| > 1 && Fits(fragment, open[..|open| - 1], templateModes, m, original)
  {
    hide Shaped, InChain, Governed;
    OptionPopped(fragment, open);
  }

  lemma OptionPopped(fragment: bool, open: seq<Elem>)
    requires Shaped(fragment, open) && (Top(open) == Option || Top(open) == Optgroup)
    ensures |open| > 1 && open[|open| - 2] != Colgroup
    ensures InChain(open, |open| - 1) <==> InChain(open[..|open| - 1], |open| - 2)
  {
    assert open[0] == Html;
    assert Placed(open, |open| - 1);
    hide Shaped, Placed;
    ChainPrefix(open, |open| - 1, |open| - 2);
  }

  // What an option or a group on top stands on, when that belongs to a select.
  lemma OptionsStand(fragment: bool, open: seq<Elem>)
    requires Shaped(fragment, open)
    ensures InChain(open, |open| - 1) ==> Top(open) == Select || Top(open) == Option || Top(open) == Optgroup
    ensures (Top(open) == Option || Top(open) == Optgroup) && InChain(open[..|open| - 1], |open| - 2) ==>
              MayFollow(open[|open| - 2], Top(open))
              && (open[|open| - 2] == Select || open[|open| - 2] == Option || open[|open| - 2] == Optgroup)
  {
    if Top(open) == Option || Top(open) == Optgroup {
      assert open[0] == Html;
      assert Placed(open, |open| - 1);
      ChainPrefix(open, |open| - 1, |open| - 2);
    }
  }

  predicate IsTableMode(m: Mode)
  {
    NeedsContext(m) || m == InCell || m == InCaption || m == InColumnGroup
  }

  // Inside a table of a document, outside of every template.
  predicate InTableContent(fragment: bool, open: seq<Elem>, m: Mode)
  {
    !fragment && Template !in open && (IsTableMode(m) || m == InTableText)
  }

  // There, the start tag of a part of the table is never lost: the part ends up
  // on top of the stack. The end tag of the table closes the innermost table,
  // whatever is open in it, and nothing below.
  predicate TableStep(t: Token, open0: seq<Elem>, open: seq<Elem>, m: Mode, again: bool)
  {
    && (t.Start? && IsPart(t.e) ==>
          if again then InTableContent(false, open, m)
          else open != [] && Top(open) == t.e && m == Inside(t.e) && Template !in open)
    && (t == End(Table) ==>
          && Last(open0, Table) >= 0
          && if again
             then InTableContent(false, open, m) && Last(open0, Table) < |open| <= |open0| && open == open0[..|open|]
             else open == open0[..Last(open0, Table)])
  }

  lemma {:induction false} TableStepTwice(t: Token, open0: seq<Elem>, open1: seq<Elem>, open2: seq<Elem>,
      m1: Mode, m2: Mode, again: bool)
    requires TableStep(t, open0, open1, m1, true) && TableStep(t, open1, open2, m2, again)
    ensures TableStep(t, open0, open2, m2, again)
  {
    if t == End(Table) {
      assert open1[Last(open0, Table)] == Table;
      SameLast(open0, open1, Table);
    }
  }

  // Tokens that TableStep is about leave the lexer inside the table while they
  // are reprocessed; of others it says nothing.
  predicate IsTableToken(t: Token)
  {
    (t.Start? && IsPart(t.e)) || t == End(Table)
  }

  lemma OtherToken(t: Token)
    requires !IsTableToken(t)
    ensures forall open0, open, m, again :: TableStep(t, open0, open, m, again)
  {
  }

  // A part is closed, and the token reprocessed.
  lemma ShorterStep(fragment: bool, t: Token, open0: seq<Elem>, m0: Mode, k: nat, m: Mode)
    requires InTableContent(fragment, open0, m0) && 0 <= Last(open0, Table) < k <= |open0| && IsTableMode(m)
    ensures TableStep(t, open0, open0[..k], m, true)
  {
    if k < |open0| { NoTemplateIn(open0, k, Html); } else { assert open0[..k] == open0; }
  }

  // A part is opened: the token's own, or one that it needs around it.
  lemma OpenedStep(fragment: bool, t: Token, open0: seq<Elem>, m0: Mode, k: nat, e: Elem, again: bool)
    requires InTableContent(fragment, open0, m0) && k <= |open0| && t.Start? && IsPart(t.e) && IsPart(e)
    requires (!again ==> t.e == e)
    ensures TableStep(t, open0, open0[..k] + [e], Inside(e), again)
  {
    NoTemplateIn(open0, k, e);
  }

  lemma TableClosedStep(open0: seq<Elem>, m: Mode)
    requires Last(open0, Table) >= 0
    ensures TableStep(End(Table), open0, open0[..Last(open0, Table)], m, false)
  {
  }

  lemma StillInTable(fragment: bool, t: Token, open0: seq<Elem>, m0: Mode, open: seq<Elem>, m: Mode)
    requires InTableContent(fragment, open0, m0) && TableStep(t, open0, open, m, true)
    ensures IsTableToken(t) ==> InTableContent(fragment, open, m)
  {
  }

  lemma TableStepAgain(t: Token, open0: seq<Elem>, open1: seq<Elem>, open2: seq<Elem>, m1: Mode, m2: Mode, again: bool)
    requires TableStep(t, open0, open1, m1, true)
    requires IsTableToken(t) ==> TableStep(t, open1, open2, m2, again)
    ensures TableStep(t, open0, open2, m2, again)
  {
    if IsTableToken(t) { TableStepTwice(t, open0, open1, open2, m1, m2, again); }
  }

  // A cell comes with the row, the section and the table that it needs.
  lemma CellInTable(fragment: bool, t: Token, open0: seq<Elem>, m0: Mode, open: seq<Elem>, m: Mode)
    requires InTableContent(fragment, open0, m0) && TableStep(t, open0, open, m, false) && t.Start? && IsCell(t.e)
    requires Shaped(fragment, open)
    ensures |open| > 5 && open[|open| - 2] == Tr && IsSection(open[|open| - 3]) && open[|open| - 4] == Table
  {
    Ancestors(open, |open| - 1);
  }

  // The part that accounts for a table mode, and the table below it.
  lemma PartOf(open: seq<Elem>, m: Mode) returns (c: nat)
    requires Shaped(false, open) && Template !in open && IsTableMode(m) && Governed(false, m, open)
    ensures GovernedBy(false, m, open, c) && InScope(open, open[c], TableScope) && Last(open, open[c]) == c
    ensures InScope(open, Table, TableScope) && 0 < Last(open, Table) <= c && (m != InTable ==> Last(open, Table) < c)
    ensures m == InTable || (IsPart(open[c]) && Inside(open[c]) == m)
    ensures m == InColumnGroup ==> c == |open| - 1
  {
    c :| GovernedBy(false, m, open, c);
    hide Shaped, InScope, Last, Governs, IsPart, Inside, IsTableMode;
    PartScoped(open, m, c);
    GovernorOf(m, open[c]);
    TableBelow(open, m, c);
  }

  lemma GovernorOf(m: Mode, e: Elem)
    requires IsTableMode(m) && Governs(m, e) && e != Template
    ensures e == Table || (IsPart(e) && Inside(e) == m)
    ensures m != InTable <==> e != Table
  {
  }

  lemma NoTemplateIn(open: seq<Elem>, k: nat, e: Elem)
    requires Template !in open && k <= |open| && e != Template
    ensures Template !in open[..k] && Template !in open[..k] + [e]
  {
  }
}
