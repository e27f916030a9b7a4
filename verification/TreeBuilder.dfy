/** The handlers of the body, table, select and template insertion modes of
    gumbo-parser/src/parser.c on the stack of tags, and the loop that reprocesses
    a token. */
module TreeBuilder {
  import opened OpenTags
  import opened InsertionModes
  import opened StackSteps

  predicate Implied(e: Elem, thorough: bool)
  {
    if thorough then HasThoroughEnd(e) else HasImpliedEnd(e)
  }

  // The topmost element e, if no special element lies above it, or -1.
  function Closable(open: seq<Elem>, e: Elem): (k: int)
    ensures -1 <= k < |open|
  {
    if open == [] then -1
    else if open[|open| - 1] == e then |open| - 1
    else if IsSpecial(open[|open| - 1]) then -1
    else Closable(open[..|open| - 1], e)
  }

  lemma {:induction false} ClosableIs(open: seq<Elem>, e: Elem)
    ensures var k := Closable(open, e);
            && (k >= 0 ==> open[k] == e && forall j :: k < j < |open| ==> open[j] != e && !IsSpecial(open[j]))
            && (k == -1 ==> forall i :: 0 <= i < |open| && open[i] == e ==>
                              exists j :: i < j < |open| && IsSpecial(open[j]))
  {
    if open != [] {
      var top := |open| - 1;
      ClosableIs(open[..top], e);
      if Closable(open, e) == -1 {
        forall i | 0 <= i < |open| && open[i] == e ensures exists j :: i < j < |open| && IsSpecial(open[j]) {
          assert open[..top][i] == open[i];
          if !IsSpecial(open[top]) {
            var j :| i < j < top && IsSpecial(open[..top][j]);
            assert IsSpecial(open[j]);
          }
        }
      }
    }
  }

  lemma ClosableIsAny(open: seq<Elem>, e: Elem)
    ensures var k := Closable(open, e); AnyOther(open, e, if k == -1 then open else open[..k])
  {
    hide Closable;
    ClosableIs(open, e);
  }

  lemma NeverImplied(e: Elem)
    requires e == Caption || IsCell(e)
    ensures !Implied(e, false)
  {
  }

  class Builder {
    const fragment: bool
    const context: Elem                // the fragment context, if there is one
    const quirks: bool
    var open: seq<Elem>
    var mode: Mode
    var original: Mode
    var templateModes: seq<Mode>
    var reprocess: bool

    // All but the mode.
    ghost predicate Sound()
      reads this`open, this`templateModes
    {
      && Shaped(fragment, open) && Counted(fragment, context, open, templateModes)
      && (fragment ==> context != Html)
    }

    ghost predicate Valid()
      reads this`open, this`templateModes, this`mode, this`original
    {
      Sound() && Fits(fragment, open, templateModes, mode, original)
    }

    // A document whose body has been opened.
    constructor Document(quirks: bool)
      ensures Valid() && !reprocess && !fragment
    {
      this.quirks := quirks;
      fragment, context, open, mode, original, templateModes, reprocess :=
        false, Html, [Html, Body], InBody, InBody, [], false;
      new;
      assert Placed(open, 1);
      assert Templates([Html, Body][..1]) == 0;
    }

    // fragment_parser_init
    constructor Fragment(context: Elem, quirks: bool)
      requires context != Html
      ensures Valid() && !reprocess && fragment && this.context == context
    {
      this.fragment, this.context, this.quirks := true, context, quirks;
      open, mode, original, reprocess := [Html], InBody, InBody, false;
      templateModes := if context == Template then [InTemplate] else [];
      new;
      assert Templates([Html][..0]) == 0;
      Reset();
    }

    // reset_insertion_mode_appropriately always finds a mode.
    method Reset()
      requires Sound()
      modifies this`mode
      ensures Valid() && mode != InTableText && IsReset(fragment, context, open, templateModes, mode)
    {
      var i := |open|;
      while true
        invariant 0 < i <= |open|
        invariant forall j :: i <= j < |open| ==> Appropriate(fragment, context, open, templateModes, j) == Initial
        decreases i
      {
        i := i - 1;
        var m := Appropriate(fragment, context, open, templateModes, i);
        if m != Initial {
          ResetFits(fragment, context, open, templateModes, i, original);
          mode := m;
          return;
        }
        ModeAtBottom(i);
      }
    }

    // The search does not go past the bottom of the stack.
    lemma ModeAtBottom(i: nat)
      requires Sound() && i < |open| && Appropriate(fragment, context, open, templateModes, i) == Initial
      ensures i > 0
    {
    }

    // One of the loops that pop up to and including the last element e.
    method PopThrough(e: Elem)
      requires Sound() && e != Html && e != Body && e != Template && Last(open, e) > 0
      requires forall j :: Last(open, e) < j < |open| ==> open[j] != Template
      modifies this`open
      ensures Sound() && open == old(open)[..Last(old(open), e)]
    {
      ghost var k := Last(open, e);
      BodyStays(fragment, open, k);
      PrefixSound(fragment, context, open, templateModes, k);
      while true
        invariant k < |open| <= |old(open)| && open == old(open)[..|open|]
        decreases |open|
      {
        var popped := Top(open);
        open := open[..|open| - 1];
        assert open == old(open)[..|open|] && popped == old(open)[|open|];
        if popped == e {
          break;
        }
      }
    }

    method PopTop()
      requires Sound() && Top(open) != Html && Top(open) != Body && Top(open) != Template
      modifies this`open
      ensures Sound() && open == old(open)[..|old(open)| - 1]
    {
      hide Shaped, Counted;
      HtmlAtBottom(fragment, open);
      BodyStays(fragment, open, |open| - 1);
      PrefixSound(fragment, context, open, templateModes, |open| - 1);
      open := open[..|open| - 1];
    }

    method Push(e: Elem)
      requires Sound() && e != Html && e != Col && e != Input && e != Body && e != Template && MayHold(Top(open), e)
      requires (InChain(open, |open| - 1) ==> MayFollow(Top(open), e)) && Top(open) != Colgroup
      modifies this`open
      ensures Sound() && open == old(open) + [e]
    {
      PushSound(fragment, context, open, templateModes, e);
      open := open + [e];
    }

    // clear_stack_to_table_context and the two like it.
    method ClearTo(m: Mode)
      requires Sound() && NeedsContext(m) && Governed(fragment, m, open)
      modifies this`open
      ensures Sound() && 0 < |open| <= |old(open)| && open == old(open)[..|open|]
      ensures IsContext(m, Top(open)) || Top(open) == Html
      ensures forall j :: |open| <= j < |old(open)| ==> !IsContext(m, old(open)[j])
      ensures !fragment ==> |open| > 1 && IsContext(m, Top(open))
      ensures !InChain(open, |open| - 1)
    {
      hide Shaped, Counted, Governed, InChain;
      HtmlAtBottom(fragment, open);
      while !IsContext(m, Top(open)) && Top(open) != Html
        invariant 0 < |open| <= |old(open)| && open == old(open)[..|open|] && open[0] == Html
        invariant forall j :: |open| <= j < |old(open)| ==> !IsContext(m, old(open)[j])
        decreases |open|
      {
        open := open[..|open| - 1];
      }
      ContextLeft(fragment, old(open), m, |open|);
      PrefixSound(fragment, context, old(open), templateModes, |open|);
    }

    // The end of a template element, by its end tag or by the end of the input.
    method CloseTemplate()
      requires Sound() && Template in open
      modifies this`open, this`templateModes, this`mode
      ensures Valid() && Last(old(open), Template) >= 0 && open == old(open)[..Last(old(open), Template)]
      ensures |old(templateModes)| > 0 && templateModes == old(templateModes)[..|old(templateModes)| - 1]
      ensures mode != InTableText && IsReset(fragment, context, open, templateModes, mode)
    {
      hide IsReset;
      ghost var k := Last(open, Template);
      LastTemplate(fragment, open);
      while true
        invariant k < |open| <= |old(open)| && open == old(open)[..|open|] && templateModes == old(templateModes)
        decreases |open|
      {
        var popped := Top(open);
        open := open[..|open| - 1];
        assert open == old(open)[..|open|] && popped == old(open)[|open|];
        if popped == Template {
          break;
        }
      }
      TemplateClosed(fragment, context, old(open), templateModes, k);
      templateModes := templateModes[..|templateModes| - 1];
      Reset();
    }

    // generate_implied_end_tags and its thorough variant.
    method GenerateImplied(thorough: bool, exception: Elem)
      requires Sound()
      modifies this`open
      ensures Sound() && 0 < |open| <= |old(open)| && open == old(open)[..|open|]
      ensures forall j :: |open| <= j < |old(open)| ==> old(open)[j] != exception
      ensures forall j :: |open| <= j < |old(open)| ==> Implied(old(open)[j], thorough)
      ensures Top(open) == exception || !Implied(Top(open), thorough)
    {
      hide Shaped, Counted;
      HtmlAtBottom(fragment, open);
      while Implied(Top(open), thorough) && Top(open) != exception
        invariant Sound() && 0 < |open| <= |old(open)| && open == old(open)[..|open|] && open[0] == Html
        invariant forall j :: |open| <= j < |old(open)| ==> old(open)[j] != exception
        invariant forall j :: |open| <= j < |old(open)| ==> Implied(old(open)[j], thorough)
        decreases |open|
      {
        PopTop();
      }
    }

    // A part of a table is opened in its context.
    method OpenPart(e: Elem)
      requires Valid() && IsPart(e) && mode == Outside(e)
      modifies this`open, this`mode
      ensures Valid() && mode == Inside(e) && 1 < |open| <= |old(open)| + 1
      ensures open == old(open)[..|open| - 1] + [e]
      ensures (IsContext(Outside(e), open[|open| - 2]) || open[|open| - 2] == Html)
      ensures forall j :: |open| - 1 <= j < |old(open)| ==> !IsContext(Outside(e), old(open)[j])
    {
      hide Shaped, Counted, Governed, InChain, IsContext, MayHold, IsPart, Inside, Outside, Fits, NeedsContext;
      NeedsContextFor(e);
      GovernedNow();
      ghost var o, m := open, mode;
      ClearTo(mode);
      ghost var k, top := |open|, Top(open);
      assert forall j :: k <= j < |o| ==> !IsContext(m, o[j]);
      PushPart(e);
      assert |open| == k + 1 && open[|open| - 2] == top;
    }

    method PushPart(e: Elem)
      requires Sound() && IsPart(e) && open != [] && (IsContext(Outside(e), Top(open)) || Top(open) == Html)
      requires !InChain(open, |open| - 1)
      modifies this`open, this`mode
      ensures Valid() && mode == Inside(e) && open == old(open) + [e]
    {
      hide Shaped, Counted, InChain, IsContext, MayHold, IsPart, Inside, Outside, Fits;
      PartFits(e, Top(open));
      PartOpened(fragment, open, templateModes, e, original);
      Push(e);
      mode := Inside(e);
    }

    lemma GovernedNow()
      requires Valid() && NeedsContext(mode)
      ensures Governed(fragment, mode, open)
    {
    }

    // A section or a row that is in scope is closed after the stack is cleared to its context.
    method ClosePart(e: Elem)
      requires Valid() && (IsSection(e) || e == Tr) && mode == Inside(e) && InScope(open, e, TableScope)
      modifies this`open, this`mode
      ensures Valid() && mode == Outside(e) && |open| < |old(open)| && open == old(open)[..|open|]
      ensures IsContext(Inside(e), old(open)[|open|]) && old(open)[|open|] != Template
      ensures forall j :: |open| < j < |old(open)| ==> !IsContext(Inside(e), old(open)[j])
    {
      hide Shaped, Counted, Fits, Governed, InChain, InScope, IsContext;
      ghost var o := open;
      HtmlAtBottom(fragment, o);
      ContextKnown(fragment, o, templateModes, mode, original);
      ClearTo(Inside(e));
      ghost var n := |open|;
      PartOnTop(o, e, n);
      PartClosed(fragment, open, templateModes, n - 1, original);
      PopTop();
      mode := Outside(e);
    }

    // A caption or a cell that is in scope is closed with everything above it.
    method CloseThrough(e: Elem)
      requires Sound() && (e == Caption || IsCell(e)) && InScope(open, e, TableScope)
      modifies this`open, this`mode
      ensures Valid() && mode == Outside(e)
      ensures Last(old(open), e) > 0 && open == old(open)[..Last(old(open), e)]
    {
      hide Shaped, Counted, Fits, InScope, Last, Implied, IsPart;
      ghost var o := open;
      ScopedAbove(fragment, o, e, TableScope);
      CellOrCaption(e);
      NeverImplied(e);
      ghost var k := Last(o, e);
      PartClosed(fragment, o, templateModes, k, original);
      GenerateImplied(false, Html);
      ghost var mid := open;
      SameLast(o, mid, e);
      PopThrough(e);
      assert mid[..k] == o[..k];
      mode := Outside(e);
    }

    // close_current_cell finds exactly one of td and th.
    method CloseCell()
      requires Valid() && mode == InCell
      modifies this`open, this`mode
      ensures Valid() && mode == InRow && |open| < |old(open)| && open == old(open)[..|open|]
      ensures IsCell(old(open)[|open|]) && forall j :: |open| < j < |old(open)| ==> !IsCell(old(open)[j])
    {
      hide Shaped, Counted, InScope, Governed, InChain;
      OneCell(fragment, open);
      CellScoped(fragment, open);
      var td := HasInScope(open, Td, TableScope);
      if td {
        assert !InScope(open, Th, TableScope);
        NoCellAbove(fragment, open, Td);
        CloseThrough(Td);
      } else {
        assert InScope(open, Th, TableScope);
        NoCellAbove(fragment, open, Th);
        CloseThrough(Th);
      }
    }

    // close_table
    method CloseTable() returns (closed: bool)
      requires Valid()
      modifies this`open, this`mode
      ensures Valid() && closed == InScope(old(open), Table, TableScope)
      ensures closed ==> Last(old(open), Table) >= 0 && open == old(open)[..Last(old(open), Table)]
      ensures closed ==> mode != InTableText && IsReset(fragment, context, open, templateModes, mode)
      ensures !closed ==> open == old(open) && mode == old(mode)
    {
      hide Shaped, Counted, InScope, Fits, IsReset;
      closed := HasInScope(open, Table, TableScope);
      if closed {
        ScopedAbove(fragment, open, Table, TableScope);
        PopThrough(Table);
        Reset();
      }
    }

    // close_current_select
    method CloseSelect()
      requires Sound() && InScope(open, Select, SelectScope)
      modifies this`open, this`mode
      ensures Valid() && Last(old(open), Select) >= 0 && open == old(open)[..Last(old(open), Select)]
      ensures mode != InTableText && IsReset(fragment, context, open, templateModes, mode)
    {
      hide Shaped, Counted, InScope, Fits, IsReset;
      ScopedAbove(fragment, open, Select, SelectScope);
      PopThrough(Select);
      Reset();
    }

    // The token is done with, or it is reprocessed from a lower state. The end of
    // the input is done with when no template is left.
    ghost predicate Progress(t: Token, m: Mode, length: nat)
      reads this`open, this`templateModes, this`mode, this`original, this`reprocess
    {
      && Valid()
      && (reprocess ==> Lower(t, mode, |open|, m, length))
      && (t == Eof && !reprocess ==> Template !in open)
    }

    // A template start tag.
    method OpenTemplate()
      requires Valid()
      modifies this`open, this`mode, this`templateModes
      ensures Valid() && open == old(open) + [Template] && mode == InTemplate
      ensures templateModes == old(templateModes) + [InTemplate]
    {
      hide Shaped, Counted, Fits, InChain;
      HtmlAtBottom(fragment, open);
      PushSound(fragment, context, open, templateModes, Template);
      TemplateOpened(fragment, open, templateModes, original);
      open := open + [Template];
      mode := InTemplate;
      templateModes := templateModes + [InTemplate];
    }

    // The template tags in handle_in_head.
    method HandleTemplateTag(t: Token)
      requires Valid() && !reprocess && (t == Start(Template) || t == End(Template))
      modifies this
      ensures Progress(t, old(mode), |old(open)|) && !reprocess
      ensures TemplateSays(t.Start?, old(open), old(mode), open, mode)
      ensures |templateModes| == |old(templateModes)| + |open| - |old(open)| || t.End?
      ensures t.End? && open != old(open) ==>
                |old(templateModes)| > 0 && templateModes == old(templateModes)[..|old(templateModes)| - 1]
    {
      hide Shaped, Counted, Fits;
      if t == Start(Template) {
        OpenTemplate();
        return;
      }
      if Template !in open {
        return;
      }
      GenerateImplied(true, Html);
      StillOpen(old(open), open);
      SameLast(old(open), open, Template);
      ghost var mid := open;
      CloseTemplate();
      assert mid[..|open|] == old(open)[..|open|];
    }

    // implicitly_close_tags, for an element that is in scope.
    method ImplicitlyClose(e: Elem)
      requires Valid() && (e == P || e == Div) && InScope(open, e, DefaultScope) && TakesContent(mode)
      modifies this`open
      ensures Valid() && Last(old(open), e) > 0 && open == old(open)[..Last(old(open), e)]
    {
      hide Shaped, Counted, Fits, InScope, Last;
      ghost var o := open;
      ScopedAbove(fragment, o, e, DefaultScope);
      ClosedFits(fragment, o, templateModes, mode, original, e);
      GenerateImplied(false, e);
      ghost var k, mid := Last(o, e), open;
      SameLast(o, mid, e);
      PopThrough(e);
      assert mid[..k] == o[..k];
    }

    // maybe_implicitly_close_p_tag
    method MaybeCloseP()
      requires Valid() && TakesContent(mode)
      modifies this`open
      ensures Valid() && open == Below(old(open), P, DefaultScope)
    {
      hide Shaped, Counted, Fits, InScope;
      var found := HasInScope(open, P, DefaultScope);
      if found {
        ImplicitlyClose(P);
      }
    }

    // An element that stays in the mode is pushed.
    method PushContent(e: Elem)
      requires Valid() && TakesContent(mode) && (e == P || e == Div || e == Span || e == Option || e == Optgroup)
      modifies this`open
      ensures Valid() && open == old(open) + [e]
    {
      hide Shaped, Counted, Fits, InChain;
      PushedFits(fragment, open, templateModes, mode, original, e);
      Push(e);
    }

    method PushTable()
      requires Valid() && TakesContent(mode)
      modifies this`open, this`mode
      ensures Valid() && open == old(open) + [Table] && mode == InTable
    {
      hide Shaped, Counted, Fits, InChain;
      TableFits(fragment, open, templateModes, mode, original);
      Push(Table);
      mode := InTable;
    }

    method PushSelect()
      requires Valid() && TakesContent(mode)
      modifies this`open, this`mode
      ensures Valid() && open == old(open) + [Select]
      ensures mode == if old(mode) == InBody then InSelect else InSelectInTable
    {
      hide Shaped, Counted, Fits, InChain;
      SelectFits(fragment, open, templateModes, mode, original);
      Push(Select);
      if mode == InTable || mode == InCaption || mode == InTableBody || mode == InRow || mode == InCell {
        mode := InSelectInTable;
      } else {
        mode := InSelect;
      }
    }

    method PopOption()
      requires Valid() && TakesContent(mode)
      modifies this`open
      ensures Valid() && open == Without(old(open), Option)
    {
      hide Shaped, Counted, Fits, InChain;
      HtmlAtBottom(fragment, open);
      if Top(open) == Option {
        OptionFits(fragment, open, templateModes, mode, original);
        PopTop();
      }
    }

    // in_body_any_other_end_tag
    method AnyOtherEndTag(e: Elem)
      requires Valid() && TakesContent(mode) && e != Html && e != Body && e != Template
      requires IsGoverned(mode) && IsStructural(e) ==> e == Select
      modifies this`open
      ensures Valid()
      ensures var k := Closable(old(open), e); open == if k == -1 then old(open) else old(open)[..k]
      ensures AnyOther(old(open), e, open)
    {
      hide Shaped, Counted, Fits, Last, Closable;
      HtmlAtBottom(fragment, open);
      ClosableIsAny(open, e);
      var i := FindClosable(e);
      if i != -1 {
        ghost var o := open;
        EndedFits(fragment, o, templateModes, mode, original, e, i);
        GenerateImplied(false, e);
        ghost var mid := open;
        SameLast(o, mid, e);
        PopThrough(e);
        assert mid[..i] == o[..i];
      }
    }

    // The walk down the stack; it stops at html at the latest.
    method FindClosable(e: Elem) returns (i: int)
      requires |open| > 0 && open[0] == Html && e != Html
      ensures i == Closable(open, e)
      ensures i >= 0 ==>
                i < |open| && open[i] == e && forall j :: i < j < |open| ==> open[j] != e && !IsSpecial(open[j])
    {
      i := |open|;
      assert open[..i] == open;
      while true
        invariant 0 < i <= |open| && Closable(open, e) == Closable(open[..i], e)
        invariant forall j :: i <= j < |open| ==> open[j] != e && !IsSpecial(open[j])
        decreases i
      {
        i := i - 1;
        assert open[..i + 1][..i] == open[..i];
        if open[i] == e {
          return;
        } else if IsSpecial(open[i]) {
          return -1;
        }
      }
    }

    // The tokens that a mode leaves to the rules of the body.
    predicate GoesToBody(t: Token)
      reads this`mode
    {
      && mode != InTableText && mode != Initial
      && (mode == InSelect || mode == InSelectInTable || mode == InColumnGroup ==> t == Eof || t == Start(Html))
      && (mode == AfterBody || mode == AfterAfterBody ==> t == Whitespace || t == Doctype || t == Start(Html))
      && (mode == InTemplate ==> !t.Start? && !t.End?)
      && (t.End? && t.e != Template ==>
            && (t.e == Html ==> mode == InBody)
            && (IsGoverned(mode) && IsStructural(t.e) ==> t.e == Select || t.e == Body))
    }

    // handle_in_body
    method HandleInBody(t: Token)
      requires Valid() && !reprocess && GoesToBody(t)
      modifies this
      ensures Progress(t, old(mode), |old(open)|)
      ensures t != Eof ==> BodySays(t, quirks, old(open), old(mode), open, mode) && (reprocess ==> t == End(Html))
      decreases if t == Eof then 1 else 0
    {
      hide Shaped, Counted, Fits;
      match t
      case Character | Whitespace | Null | Comment | Doctype => return;
      case Eof =>
        if templateModes != [] {
          HandleInTemplate(t);
        } else {
          NoTemplateLeft(fragment, context, open, templateModes);
        }
      case Start(e) => HandleBodyStart(t, e);
      case End(e) => HandleBodyEnd(t, e);
    }

    method HandleBodyStart(t: Token, e: Elem)
      requires Valid() && !reprocess && t == Start(e) && (TakesContent(mode) || e == Html)
      modifies this
      ensures Progress(t, old(mode), |old(open)|) && !reprocess
      ensures BodyStartSays(e, quirks, old(open), old(mode), open, mode)
    {
      hide Shaped, Counted, Fits, Lower, InScope, Last;
      match e
      case Html | Body | Input => return;
      case Template => HandleTemplateTag(t);
      case P | Div =>
        MaybeCloseP();
        PushContent(e);
      case Table =>
        if !quirks {
          MaybeCloseP();
        }
        PushTable();
      case Select => PushSelect();
      case Option | Optgroup =>
        PopOption();
        PushContent(e);
      case Span => PushContent(e);
      case Caption | Col | Colgroup | Tbody | Tfoot | Thead | Td | Th | Tr => return;
    }

    method HandleBodyEnd(t: Token, e: Elem)
      requires Valid() && !reprocess && t == End(e) && TakesContent(mode) && GoesToBody(t)
      modifies this
      ensures Progress(t, old(mode), |old(open)|) && (reprocess ==> e == Html)
      ensures BodyEndSays(e, old(open), old(mode), open, mode)
    {
      hide Shaped, Counted, Fits, InScope, Last, AnyOther;
      match e
      case Template => HandleTemplateTag(t);
      case Body | Html =>
        var found := HasInScope(open, Body, DefaultScope);
        if found {
          BodyFits(fragment, open, templateModes, mode, original);
          mode := AfterBody;
          reprocess := e == Html;
        }
      case Div =>
        var found := HasInScope(open, Div, DefaultScope);
        if found {
          ImplicitlyClose(Div);
        }
      case P =>
        var found := HasInScope(open, P, DefaultScope);
        if !found {
          TopInScope(open, P, DefaultScope);
          LastPushed(open, P);
          PushContent(P);
        }
        ImplicitlyClose(P);
      case _ => AnyOtherEndTag(e);
    }

    // handle_in_template
    method HandleInTemplate(t: Token)
      requires Valid() && !reprocess && (mode == InTemplate || (t == Eof && mode != InTableText))
      modifies this
      ensures Progress(t, old(mode), |old(open)|)
      decreases if t == Eof then 0 else 1
    {
      hide Shaped, Counted, Fits, IsReset, Last, Lower;
      match t
      case Character | Whitespace | Null | Comment | Doctype => HandleInBody(t);
      case Eof =>
        if Template in open {
          var m, length := mode, |open|;
          CloseTemplate();
          reprocess := true;
          ShorterIsLower(t, mode, |open|, m, length);
        }
      case End(e) =>
        if e == Template {
          HandleTemplateTag(t);
        }
      case Start(e) =>
        if e == Template {
          HandleTemplateTag(t);
        } else {
          var m := TemplateModeFor(e);
          var length := |open|;
          SwitchTemplate(m);
          reprocess := true;
          SwitchIsLower(t, m, length);
        }
    }

    // The template mode on top is replaced.
    method SwitchTemplate(m: Mode)
      requires Valid() && mode == InTemplate && IsTemplateMode(m) && m != InTemplate
      modifies this`mode, this`templateModes
      ensures Valid() && mode == m
    {
      hide Shaped, Counted, Governed, InChain;
      TemplateFits(fragment, context, open, templateModes, m, original);
      templateModes := templateModes[..|templateModes| - 1] + [m];
      mode := m;
    }

    // What is known inside a table: the part that accounts for the mode.
    lemma Within() returns (c: nat)
      requires Valid() && InTableContent(fragment, open, mode)
      ensures c < |open| && InScope(open, Table, TableScope) && 0 < Last(open, Table) <= c
      ensures mode == InTableText ==> NeedsContext(original)
      ensures mode != InTableText && mode != InTable ==>
                && Last(open, Table) < c && IsPart(open[c]) && Inside(open[c]) == mode
                && InScope(open, open[c], TableScope) && Last(open, open[c]) == c
      ensures mode == InColumnGroup ==> c == |open| - 1 && Top(open) == Colgroup
      ensures forall j :: c < j < |open| ==> !IsStructural(open[j])
    {
      c := PartOf(open, if mode == InTableText then original else mode);
    }

    // handle_in_table, also for what the modes of its sections and rows leave to it.
    method HandleInTable(t: Token)
      requires Valid() && !reprocess && NeedsContext(mode)
      requires mode != InTable && t.Start? ==> !IsPart(t.e) && t.e != Col
      requires mode != InTable && t.End? ==> !IsPart(t.e) && t.e != Table
      modifies this
      ensures Progress(t, old(mode), |old(open)|)
      ensures old(InTableContent(fragment, open, mode)) ==> TableStep(t, old(open), open, mode, reprocess)
      ensures IsContent(t) ==> BodySays(t, quirks, old(open), old(mode), open, mode) && !reprocess
    {
      hide Shaped, Counted, Fits, Governed, InChain, TableStep, BodySays, InTableContent, InScope, Templates, Lower;
      if !IsTableToken(t) {
        OtherToken(t);
      }
      if IsText(t) && HoldsTableText() {
        StartTableText(t);
        return;
      }
      if t == Comment || t == Doctype {
        return;
      }
      if t.Start? && (IsPart(t.e) || t.e == Col) {
        HandlePartStart(t, t.e);
      } else if t == Start(Table) || t == End(Table) {
        HandleTableTag(t);
      } else if t.End? && (t.e == Body || t.e == Col || t.e == Html || IsPart(t.e)) {
        return;
      } else if t == Start(Template) || t == End(Template) {
        HandleTemplateTag(t);
      } else {
        HandleInBody(t);
      }
    }

    // Both tags close the innermost table; the start tag is then reprocessed.
    method HandleTableTag(t: Token)
      requires Valid() && !reprocess && NeedsContext(mode) && (t == Start(Table) || t == End(Table))
      modifies this
      ensures Progress(t, old(mode), |old(open)|)
      ensures old(InTableContent(fragment, open, mode)) ==> TableStep(t, old(open), open, mode, reprocess)
    {
      hide Shaped, Counted, Fits, InScope, IsReset, Lower, TableStep;
      if t == Start(Table) {
        OtherToken(t);
      }
      ghost var inside := InTableContent(fragment, open, mode);
      ghost var o, m0, c := open, mode, 0;
      if inside {
        c := Within();
      }
      var closed := CloseTable();
      if inside { TableClosedStep(o, mode); }
      if closed && t == Start(Table) {
        reprocess := true;
        ShorterIsLower(t, mode, |open|, m0, |o|);
      }
    }

    predicate HoldsTableText()
      requires Sound()
      reads this
    {
      Top(open) == Table || IsSection(Top(open)) || Top(open) == Template || Top(open) == Tr
    }

    method StartTableText(t: Token)
      requires Valid() && NeedsContext(mode) && IsText(t)
      modifies this`mode, this`original, this`reprocess
      ensures Progress(t, old(mode), |open|) && reprocess && mode == InTableText && original == old(mode)
    {
      hide Shaped, Counted, Governed, InChain;
      original := mode;
      mode := InTableText;
      reprocess := true;
    }

    method HandlePartStart(t: Token, e: Elem)
      requires Valid() && !reprocess && mode == InTable && t == Start(e) && (IsPart(e) || e == Col)
      modifies this
      ensures Progress(t, old(mode), |old(open)|)
      ensures old(InTableContent(fragment, open, mode)) ==> TableStep(t, old(open), open, mode, reprocess)
    {
      hide Shaped, Counted, Fits, TableStep, InTableContent;
      if !IsTableToken(t) {
        OtherToken(t);
      }
      ghost var inside := InTableContent(fragment, open, mode);
      ghost var o, m0 := open, mode;
      if e == Col {
        OpenPart(Colgroup);
        reprocess := true;
      } else if e == Tr || IsCell(e) {
        OpenPart(Tbody);
        reprocess := true;
        if inside { OpenedStep(fragment, t, o, m0, |open| - 1, Tbody, true); }
      } else {
        OpenPart(e);
        if inside { OpenedStep(fragment, t, o, m0, |open| - 1, e, false); }
      }
    }

    // handle_in_table_text
    method HandleInTableText(t: Token)
      requires Valid() && !reprocess && mode == InTableText
      modifies this
      ensures Progress(t, old(mode), |old(open)|)
      ensures old(InTableContent(fragment, open, mode)) ==> TableStep(t, old(open), open, mode, reprocess)
    {
      hide Shaped, Counted, Fits, TableStep, InTableContent, InScope, Last, IsStructural;
      if IsText(t) {
        OtherToken(t);
        return;
      }
      ghost var inside := InTableContent(fragment, open, mode);
      ghost var o, m0, c := open, mode, 0;
      if inside {
        c := Within();
      }
      reprocess := true;
      EndTableText();
      assert open == o[..|open|];
      if inside { ShorterStep(fragment, t, o, m0, |open|, mode); }
    }

    method EndTableText()
      requires Valid() && mode == InTableText
      modifies this`mode
      ensures Valid() && mode == original && NeedsContext(mode)
    {
      hide Shaped, Counted, Governed, InChain;
      mode := original;
    }

    // handle_in_caption
    method HandleInCaption(t: Token)
      requires Valid() && !reprocess && mode == InCaption
      modifies this
      ensures Progress(t, old(mode), |old(open)|)
      ensures old(InTableContent(fragment, open, mode)) ==> TableStep(t, old(open), open, mode, reprocess)
      ensures IsContent(t) ==> BodySays(t, quirks, old(open), old(mode), open, mode) && !reprocess
    {
      hide Shaped, Counted, Fits, InScope, Lower, TableStep, InTableContent, BodySays;
      if t == End(Caption) || (t.Start? && (IsPart(t.e) || t.e == Col)) || t == End(Table) {
        LeaveCaption(t);
        return;
      }
      OtherToken(t);
      if t.End? && (t.e == Body || t.e == Col || t.e == Html || IsPart(t.e)) {
        return;
      }
      HandleInBody(t);
    }

    // A token that closes the caption if it is in scope.
    method LeaveCaption(t: Token)
      requires Valid() && !reprocess && mode == InCaption && t != Eof
      modifies this
      ensures Progress(t, old(mode), |old(open)|)
      ensures old(InTableContent(fragment, open, mode)) ==> TableStep(t, old(open), open, mode, reprocess)
    {
      hide Shaped, Counted, Fits, InScope, Lower, TableStep, InTableContent, Last, IsStructural;
      if !IsTableToken(t) {
        OtherToken(t);
      }
      ghost var inside := InTableContent(fragment, open, mode);
      ghost var o, m0, c := open, mode, 0;
      if inside {
        c := Within();
      }
      var found := HasInScope(open, Caption, TableScope);
      if found {
        CloseThrough(Caption);
        reprocess := t != End(Caption);
        ShorterIsLower(t, mode, |open|, InCaption, |o|);
        if inside && reprocess { ShorterStep(fragment, t, o, m0, |open|, mode); }
      }
    }

    // handle_in_column_group; a col element is pushed and popped at once.
    method HandleInColumnGroup(t: Token)
      requires Valid() && !reprocess && mode == InColumnGroup
      modifies this
      ensures Progress(t, old(mode), |old(open)|)
      ensures old(InTableContent(fragment, open, mode)) ==> TableStep(t, old(open), open, mode, reprocess)
    {
      hide Shaped, Counted, Fits, Lower, TableStep;
      if !IsTableToken(t) {
        OtherToken(t);
      }
      if t == Whitespace || t == Comment || t == Doctype || t == Start(Col) || t == End(Col) {
        return;
      }
      if t == Start(Html) || t == Eof {
        HandleInBody(t);
        return;
      }
      if t == Start(Template) || t == End(Template) {
        HandleTemplateTag(t);
        return;
      }
      LeaveColgroup(t);
    }

    // A token that closes the colgroup if it is the current node.
    method LeaveColgroup(t: Token)
      requires Valid() && !reprocess && mode == InColumnGroup && !Opens(t, InColumnGroup) && t != Eof
      modifies this
      ensures Progress(t, old(mode), |old(open)|)
      ensures old(InTableContent(fragment, open, mode)) ==> TableStep(t, old(open), open, mode, reprocess)
    {
      hide Shaped, Counted, Fits, Lower, TableStep, InTableContent, IsPart, Inside, IsStructural, InScope, Last, Opens;
      if !IsTableToken(t) {
        OtherToken(t);
      }
      ghost var inside := InTableContent(fragment, open, mode);
      ghost var o, m0, c := open, mode, 0;
      if inside {
        c := Within();
      }
      var closed := CloseColgroup();
      if closed && t != End(Colgroup) {
        reprocess := true;
        ShorterIsLower(t, mode, |open|, InColumnGroup, |o|);
        if inside { ShorterStep(fragment, t, o, m0, |open|, mode); }
      }
    }

    method CloseColgroup() returns (closed: bool)
      requires Valid() && mode == InColumnGroup
      modifies this`open, this`mode
      ensures Valid() && closed == (Top(old(open)) == Colgroup)
      ensures closed ==> mode == InTable && |old(open)| > 1 && open == old(open)[..|old(open)| - 1]
      ensures !closed ==> open == old(open) && mode == InColumnGroup
    {
      hide Shaped, Counted, Fits;
      HtmlAtBottom(fragment, open);
      closed := Top(open) == Colgroup;
      if closed {
        PartClosed(fragment, open, templateModes, |open| - 1, original);
        PopTop();
        mode := InTable;
      }
    }

    // handle_in_table_body
    method HandleInTableBody(t: Token)
      requires Valid() && !reprocess && mode == InTableBody
      modifies this
      ensures Progress(t, old(mode), |old(open)|)
      ensures old(InTableContent(fragment, open, mode)) ==> TableStep(t, old(open), open, mode, reprocess)
      ensures IsContent(t) ==> BodySays(t, quirks, old(open), old(mode), open, mode) && !reprocess
    {
      hide Shaped, Counted, Fits, InScope, TableStep, BodySays;
      if !IsTableToken(t) {
        OtherToken(t);
      }
      if t.Start? && (t.e == Tr || IsCell(t.e)) {
        OpenRow(t);
      } else if t.End? && IsSection(t.e) {
        var found := HasInScope(open, t.e, TableScope);
        if found {
          ClosePart(t.e);
        }
      } else if (t.Start? && (IsPart(t.e) || t.e == Col)) || t == End(Table) {
        LeaveSection(t);
      } else if t.End? && (t.e == Body || t.e == Col || t.e == Html || IsPart(t.e)) {
        return;
      } else {
        HandleInTable(t);
      }
    }

    // A row is opened, for a cell too.
    method OpenRow(t: Token)
      requires Valid() && !reprocess && mode == InTableBody && t.Start? && (t.e == Tr || IsCell(t.e))
      modifies this
      ensures Progress(t, old(mode), |old(open)|)
      ensures old(InTableContent(fragment, open, mode)) ==> TableStep(t, old(open), open, mode, reprocess)
    {
      hide Shaped, Counted, Fits, TableStep, InTableContent;
      ghost var o, m0 := open, mode;
      OpenPart(Tr);
      reprocess := t.e != Tr;
      if InTableContent(fragment, o, m0) { OpenedStep(fragment, t, o, m0, |open| - 1, Tr, reprocess); }
    }

    method FindSection() returns (found: bool, e: Elem)
      ensures found ==> IsSection(e) && InScope(open, e, TableScope)
      ensures !found ==> forall x :: IsSection(x) ==> !InScope(open, x, TableScope)
    {
      hide InScope;
      e := Tbody;
      found := HasInScope(open, Tbody, TableScope);
      if !found {
        e := Thead;
        found := HasInScope(open, Thead, TableScope);
      }
      if !found {
        e := Tfoot;
        found := HasInScope(open, Tfoot, TableScope);
      }
    }

    lemma SectionWithin()
      requires Valid() && mode == InTableBody
      ensures InTableContent(fragment, open, mode) ==> exists x :: IsSection(x) && InScope(open, x, TableScope)
      ensures forall x :: IsSection(x) && InScope(open, x, TableScope) ==> mode == Inside(x)
    {
      hide Shaped, Counted, Fits, InScope, Last;
      if InTableContent(fragment, open, mode) {
        var c := Within();
      }
    }

    // A token that closes whichever section is in scope.
    method LeaveSection(t: Token)
      requires Valid() && !reprocess && mode == InTableBody && !Opens(t, InTableBody) && t != Eof
      modifies this
      ensures Progress(t, old(mode), |old(open)|)
      ensures old(InTableContent(fragment, open, mode)) ==> TableStep(t, old(open), open, mode, reprocess)
    {
      hide Shaped, Counted, Fits, InScope, Lower, TableStep, InTableContent, Opens;
      if !IsTableToken(t) {
        OtherToken(t);
      }
      SectionWithin();
      var found, e := FindSection();
      if found {
        Leave(t, e, true);
      }
    }

    // A section or a row that is in scope is left, and the token is reprocessed
    // unless it was about nothing else.
    method Leave(t: Token, e: Elem, again: bool)
      requires Valid() && !reprocess && (IsSection(e) || e == Tr) && mode == Inside(e) && InScope(open, e, TableScope)
      requires !Opens(t, mode) && t != Eof && (again || !IsTableToken(t))
      modifies this
      ensures Progress(t, old(mode), |old(open)|)
      ensures old(InTableContent(fragment, open, mode)) ==> TableStep(t, old(open), open, mode, reprocess)
    {
      hide Shaped, Counted, Fits, InScope, Lower, TableStep, InTableContent, Opens;
      ghost var inside := InTableContent(fragment, open, mode);
      ghost var o, m0 := open, mode;
      if inside {
        var c := Within();
      }
      ClosePart(e);
      reprocess := again;
      assert mode != InTableText && m0 != InTableText;
      ShorterIsLower(t, mode, |open|, m0, |o|);
      if again {
        if inside { ShorterStep(fragment, t, o, m0, |open|, mode); }
      } else {
        OtherToken(t);
      }
    }

    // handle_in_row
    method HandleInRow(t: Token)
      requires Valid() && !reprocess && mode == InRow
      modifies this
      ensures Progress(t, old(mode), |old(open)|)
      ensures old(InTableContent(fragment, open, mode)) ==> TableStep(t, old(open), open, mode, reprocess)
      ensures IsContent(t) ==> BodySays(t, quirks, old(open), old(mode), open, mode) && !reprocess
    {
      hide Shaped, Counted, Fits, InScope, TableStep, BodySays;
      if !IsTableToken(t) {
        OtherToken(t);
      }
      ghost var inside := InTableContent(fragment, open, mode);
      ghost var o, m0 := open, mode;
      if t.Start? && IsCell(t.e) {
        OpenPart(t.e);
        if inside { OpenedStep(fragment, t, o, m0, |open| - 1, t.e, false); }
      } else if t == End(Tr) || (t.Start? && (IsPart(t.e) || t.e == Col)) || t == End(Table) {
        LeaveRow(t);
      } else if t.End? && IsSection(t.e) {
        var found := HasInScope(open, t.e, TableScope);
        if found {
          LeaveRow(t);
        }
      } else if t.End? && (t.e == Body || t.e == Col || t.e == Html || IsPart(t.e)) {
        return;
      } else {
        HandleInTable(t);
      }
    }

    // A token that closes the row if it is in scope.
    method LeaveRow(t: Token)
      requires Valid() && !reprocess && mode == InRow && !Opens(t, InRow) && t != Eof
      modifies this
      ensures Progress(t, old(mode), |old(open)|)
      ensures old(InTableContent(fragment, open, mode)) ==> TableStep(t, old(open), open, mode, reprocess)
    {
      hide Shaped, Counted, Fits, InScope, Lower, TableStep, InTableContent;
      if !IsTableToken(t) {
        OtherToken(t);
      }
      if InTableContent(fragment, open, mode) {
        var c := Within();
      }
      var found := HasInScope(open, Tr, TableScope);
      if found {
        Leave(t, Tr, t != End(Tr));
      }
    }

    lemma CellWithin()
      requires Valid() && mode == InCell
      ensures InTableContent(fragment, open, mode) ==>
                InScope(open, Table, TableScope) && (InScope(open, Td, TableScope) || InScope(open, Th, TableScope))
    {
      hide Shaped, Counted, Fits, InScope, Last;
      if InTableContent(fragment, open, mode) {
        var c := Within();
        assert open[c] == Td || open[c] == Th;
      }
    }

    // handle_in_cell
    method HandleInCell(t: Token)
      requires Valid() && !reprocess && mode == InCell
      modifies this
      ensures Progress(t, old(mode), |old(open)|)
      ensures old(InTableContent(fragment, open, mode)) ==> TableStep(t, old(open), open, mode, reprocess)
      ensures IsContent(t) ==> BodySays(t, quirks, old(open), old(mode), open, mode) && !reprocess
    {
      hide Shaped, Counted, Fits, InScope, Lower, TableStep, BodySays, InTableContent, Last;
      if !IsTableToken(t) {
        OtherToken(t);
      }
      CellWithin();
      if t.End? && IsCell(t.e) {
        var found := HasInScope(open, t.e, TableScope);
        if found {
          CloseThrough(t.e);
        }
      } else if t.Start? && (IsPart(t.e) || t.e == Col) {
        var th := HasInScope(open, Th, TableScope);
        var td := HasInScope(open, Td, TableScope);
        if !th && !td {
          return;
        }
        LeaveCell(t);
      } else if t.End? && (t.e == Body || t.e == Caption || t.e == Col || t.e == Colgroup || t.e == Html) {
        return;
      } else if t.End? && (t.e == Table || IsSection(t.e) || t.e == Tr) {
        var found := HasInScope(open, t.e, TableScope);
        if !found {
          return;
        }
        LeaveCell(t);
      } else {
        HandleInBody(t);
      }
    }

    // A token that closes the cell and is reprocessed.
    method LeaveCell(t: Token)
      requires Valid() && !reprocess && mode == InCell && t != Eof
      modifies this
      ensures Progress(t, old(mode), |old(open)|)
      ensures old(InTableContent(fragment, open, mode)) ==> TableStep(t, old(open), open, mode, reprocess)
    {
      hide Shaped, Counted, Fits, Lower, TableStep, InTableContent;
      ghost var inside := InTableContent(fragment, open, mode);
      ghost var o, m0, c := open, mode, 0;
      if inside {
        c := Within();
      }
      reprocess := true;
      CloseCell();
      ShorterIsLower(t, mode, |open|, InCell, |o|);
      if inside { ShorterStep(fragment, t, o, m0, |open|, mode); }
    }

    // handle_in_select
    method HandleInSelect(t: Token)
      requires Valid() && !reprocess && (mode == InSelect || mode == InSelectInTable)
      modifies this
      ensures Progress(t, old(mode), |old(open)|)
      ensures SelectRules(t, old(open), old(mode), open, mode, reprocess)
    {
      hide Shaped, Counted, Fits, InScope, Lower, SelectStartSays, SelectEndSays;
      match t
      case Character | Whitespace | Null | Comment | Doctype => return;
      case Eof => HandleInBody(t);
      case Start(e) => HandleSelectStart(t, e);
      case End(e) => HandleSelectEnd(t, e);
    }

    method HandleSelectEnd(t: Token, e: Elem)
      requires Valid() && !reprocess && (mode == InSelect || mode == InSelectInTable) && t == End(e)
      modifies this
      ensures Progress(t, old(mode), |old(open)|) && !reprocess
      ensures SelectEndSays(e, old(open), old(mode), open, mode)
    {
      hide Shaped, Counted, Fits, InScope, Lower, Last;
      if e == Optgroup {
        HandleOptgroupEnd();
      } else if e == Option {
        PopSelectTop(Option);
      } else if e == Select {
        var found := HasInScope(open, Select, SelectScope);
        if found {
          CloseSelect();
        }
      } else if e == Template {
        HandleTemplateTag(t);
      }
    }

    method HandleSelectStart(t: Token, e: Elem)
      requires Valid() && !reprocess && (mode == InSelect || mode == InSelectInTable) && t == Start(e)
      modifies this
      ensures Progress(t, old(mode), |old(open)|)
      ensures SelectStartSays(e, old(open), old(mode), open, mode, reprocess)
    {
      hide Shaped, Counted, Fits, InScope, Lower;
      var m, length := mode, |open|;
      if e == Html {
        HandleInBody(t);
      } else if e == Option || e == Optgroup {
        OpenOption(e);
      } else if e == Select || e == Input {
        var found := HasInScope(open, Select, SelectScope);
        if found {
          CloseSelect();
          reprocess := e == Input;
          ShorterIsLower(t, mode, |open|, m, length);
        }
      } else if e == Template {
        HandleTemplateTag(t);
      }
    }

    // An option closes an option, and a group closes both.
    method OpenOption(e: Elem)
      requires Valid() && (mode == InSelect || mode == InSelectInTable) && (e == Option || e == Optgroup)
      modifies this`open
      ensures Valid()
      ensures open == (if e == Option then Without(old(open), Option)
                       else Without(Without(old(open), Option), Optgroup)) + [e]
    {
      hide Shaped, Counted, Fits, InChain;
      HtmlAtBottom(fragment, open);
      OptionsStand(fragment, open);
      PopSelectTop(Option);
      HtmlAtBottom(fragment, open);
      OptionsStand(fragment, open);
      if e == Optgroup {
        PopSelectTop(Optgroup);
        HtmlAtBottom(fragment, open);
      }
      PushOption(e);
    }

    // Pops an option or an optgroup if it is on top.
    method PopSelectTop(e: Elem)
      requires Valid() && (mode == InSelect || mode == InSelectInTable) && (e == Option || e == Optgroup)
      modifies this`open
      ensures Valid() && open == Without(old(open), e)
    {
      hide Shaped, Counted, Fits;
      HtmlAtBottom(fragment, open);
      if Top(open) == e {
        SelectPopped(fragment, open, templateModes, mode, original);
        PopTop();
      }
    }

    method PushOption(e: Elem)
      requires Valid() && (mode == InSelect || mode == InSelectInTable) && (e == Option || e == Optgroup)
      requires InChain(open, |open| - 1) ==> MayFollow(Top(open), e)
      modifies this`open
      ensures Valid() && open == old(open) + [e]
    {
      hide Shaped, Counted, Fits, InChain;
      SelectPushed(fragment, open, templateModes, mode, original, e);
      Push(e);
    }

    // An optgroup end tag; the element below an option is looked at.
    method HandleOptgroupEnd()
      requires Valid() && (mode == InSelect || mode == InSelectInTable)
      modifies this`open
      ensures Valid()
      ensures open == if |old(open)| > 1 && old(open)[|old(open)| - 2..] == [Optgroup, Option]
                      then old(open)[..|old(open)| - 2] else Without(old(open), Optgroup)
    {
      hide Shaped, Counted, Fits;
      HtmlAtBottom(fragment, open);
      if Top(open) == Option && open[|open| - 2] == Optgroup {
        PopSelectTop(Option);
      }
      PopSelectTop(Optgroup);
    }

    lemma SelectIsScoped()
      requires Valid() && mode == InSelectInTable
      ensures InScope(open, Select, SelectScope)
    {
      hide Shaped, Governed;
      ChainScoped(fragment, open);
    }

    // handle_in_select_in_table
    method HandleInSelectInTable(t: Token)
      requires Valid() && !reprocess && mode == InSelectInTable
      modifies this
      ensures Progress(t, old(mode), |old(open)|)
      ensures SelectSays(t, old(open), old(mode), open, mode, reprocess)
    {
      hide Shaped, Counted, Fits, InScope, Lower, SelectRules, Last;
      var length := |open|;
      SelectIsScoped();
      if t.Start? && IsTablePart(t.e) {
        CloseSelect();
        reprocess := true;
        ShorterIsLower(t, mode, |open|, InSelectInTable, length);
      } else if t.End? && IsTablePart(t.e) {
        var found := HasInScope(open, t.e, TableScope);
        if !found {
          return;
        }
        CloseSelect();
        reprocess := true;
        ShorterIsLower(t, mode, |open|, InSelectInTable, length);
      } else {
        HandleInSelect(t);
      }
    }

    // handle_after_body
    method HandleAfterBody(t: Token)
      requires Valid() && !reprocess && mode == AfterBody
      modifies this
      ensures Progress(t, old(mode), |old(open)|)
    {
      hide Shaped, Counted, Governed, InChain;
      if t == Whitespace || t == Start(Html) {
        HandleInBody(t);
      } else if t == Comment || t == Doctype {
        return;
      } else if t == End(Html) {
        if !fragment {
          mode := AfterAfterBody;
        }
      } else if t != Eof {
        mode := InBody;
        reprocess := true;
      }
    }

    // handle_after_after_body
    method HandleAfterAfterBody(t: Token)
      requires Valid() && !reprocess && mode == AfterAfterBody
      modifies this
      ensures Progress(t, old(mode), |old(open)|)
    {
      hide Shaped, Counted, Governed, InChain;
      if t == Doctype || t == Whitespace || t == Start(Html) {
        HandleInBody(t);
      } else if t != Comment && t != Eof {
        mode := InBody;
        reprocess := true;
      }
    }

    // The handler of the mode, from kTokenHandlers.
    method HandleToken(t: Token)
      requires Valid() && !reprocess
      modifies this
      ensures Progress(t, old(mode), |old(open)|)
      ensures old(InTableContent(fragment, open, mode)) ==> TableStep(t, old(open), open, mode, reprocess)
      ensures StepSays(t, quirks, old(open), old(mode), open, mode, reprocess)
    {
      hide Shaped, Counted, Governed, InChain, Lower, TableStep, BodySays, SelectRules;
      match mode
      case InBody => HandleInBody(t);
      case InTable => HandleInTable(t);
      case InTableText => HandleInTableText(t);
      case InCaption => HandleInCaption(t);
      case InColumnGroup => HandleInColumnGroup(t);
      case InTableBody => HandleInTableBody(t);
      case InRow => HandleInRow(t);
      case InCell => HandleInCell(t);
      case InSelect => HandleInSelect(t);
      case InSelectInTable => HandleInSelectInTable(t);
      case InTemplate => HandleInTemplate(t);
      case AfterBody => HandleAfterBody(t);
      case AfterAfterBody => HandleAfterAfterBody(t);
    }

    // The loop of gumbo_parse_with_options on one token: it ends for every token in
    // every valid state. In the body, in a select and for what a table leaves to the
    // body, the stack and the mode afterwards are those that StepSays tells. Inside a
    // table, a part's start tag ends up on top of the stack, and the table's end tag
    // closes exactly the innermost table.
    method ProcessToken(t: Token)
      requires Valid() && !reprocess
      modifies this
      ensures Valid() && !reprocess && (t == Eof ==> Template !in open)
      ensures old(InTableContent(fragment, open, mode)) ==> TableStep(t, old(open), open, mode, false)
      ensures old(InTableContent(fragment, open, mode)) && t.Start? && IsCell(t.e) ==>
                |open| > 5 && open[|open| - 2] == Tr && IsSection(open[|open| - 3]) && open[|open| - 4] == Table
      ensures OnceOnly(t, old(mode)) ==> StepSays(t, quirks, old(open), old(mode), open, mode, false)
    {
      hide Shaped, Counted, Fits, TableStep, InTableContent, StepSays, OnceOnly;
      ghost var o := open;
      HandleToken(t);
      if OnceOnly(t, old(mode)) {
        OnceIsDone(t, quirks, o, old(mode), open, mode, reprocess);
      }
      while reprocess
        invariant Valid() && (t == Eof && !reprocess ==> Template !in open)
        invariant OnceOnly(t, old(mode)) ==> !reprocess && StepSays(t, quirks, o, old(mode), open, mode, false)
        invariant old(InTableContent(fragment, open, mode)) ==> TableStep(t, o, open, mode, reprocess)
        decreases reprocess, Phase(t, mode), Depth(t, mode, |open|), Step(t, mode)
      {
        reprocess := false;
        ghost var o1, m1 := open, mode;
        if InTableContent(fragment, o, old(mode)) {
          StillInTable(fragment, t, o, old(mode), o1, m1);
        }
        HandleToken(t);
        if InTableContent(fragment, o, old(mode)) {
          TableStepAgain(t, o, o1, open, m1, mode, reprocess);
        }
      }
      if InTableContent(fragment, o, old(mode)) && t.Start? && IsCell(t.e) {
        CellInTable(fragment, t, o, old(mode), open, mode);
      }
    }

    // A whole run, up to the end of the input.
    method Parse(tokens: seq<Token>)
      requires Valid() && !reprocess
      modifies this
      ensures Valid() && Template !in open
    {
      hide Shaped, Counted, Fits;
      for i := 0 to |tokens|
        invariant Valid() && !reprocess
      {
        if tokens[i] == Eof {
          break;
        }
        ProcessToken(tokens[i]);
      }
      ProcessToken(Eof);
    }
  }
}
