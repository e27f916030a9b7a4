/** The stack of open elements seen as a sequence of tags, for the table, select
    and template modes of gumbo-parser/src/parser.c. Div stands for the elements
    that close a paragraph, Span for those without rules of their own. */
module OpenTags {

  datatype Elem =
    | Html | Body | Template | Table | Tbody | Tfoot | Thead | Tr | Td | Th | Caption | Colgroup | Col
    | Select | Option | Optgroup | Input | P | Div | Span

  datatype Mode =
    | Initial  // get_appropriate_insertion_mode's "no mode"
    | InBody | InTable | InTableText | InCaption | InColumnGroup | InTableBody | InRow | InCell
    | InSelect | InSelectInTable | InTemplate | AfterBody | AfterAfterBody

  predicate IsSection(e: Elem)
  {
    e == Tbody || e == Tfoot || e == Thead
  }

  predicate IsCell(e: Elem)
  {
    e == Td || e == Th
  }

  // is_special_node
  predicate IsSpecial(e: Elem)
  {
    e != Option && e != Optgroup && e != Span
  }

  // generate_implied_end_tags
  predicate HasImpliedEnd(e: Elem)
  {
    e == Option || e == Optgroup || e == P
  }

  // generate_all_implied_end_tags_thoroughly
  predicate HasThoroughEnd(e: Elem)
  {
    HasImpliedEnd(e) || e == Caption || e == Colgroup || IsSection(e) || IsCell(e) || e == Tr
  }

  predicate EndsScope(e: Elem)
  {
    e == Html || e == Table || IsCell(e) || e == Caption || e == Template
  }

  // Where the three table contexts end.
  predicate IsContext(mode: Mode, e: Elem)
  {
    e == Template
    || (mode == InTable && e == Table) || (mode == InTableBody && IsSection(e)) || (mode == InRow && e == Tr)
  }

  // The elements that decide the mode when it is reset.
  predicate IsStructural(e: Elem)
  {
    || e == Html || e == Body || e == Template || e == Table || IsSection(e) || e == Tr || IsCell(e)
    || e == Caption || e == Colgroup || e == Select
  }

  predicate NeedsContext(mode: Mode)
  {
    mode == InTable || mode == InTableBody || mode == InRow
  }

  // Modes that an open element accounts for, and the elements that do.
  predicate IsGoverned(mode: Mode)
  {
    NeedsContext(mode) || mode == InCell || mode == InCaption || mode == InColumnGroup || mode == InTemplate
  }

  predicate Governs(mode: Mode, e: Elem)
  {
    match mode
    case InTable | InTableBody | InRow => IsContext(mode, e)
    case InCell => IsCell(e)
    case InCaption => e == Caption
    case InColumnGroup => e == Colgroup || e == Template
    case InTemplate => e == Template
    case _ => false
  }

  function Top(open: seq<Elem>): (e: Elem)
    requires open != []
  {
    open[|open| - 1]
  }

  // Index of the last element e, or -1.
  function Last(open: seq<Elem>, e: Elem): (i: int)
    ensures -1 <= i < |open|
    ensures i >= 0 ==> open[i] == e
    ensures forall j :: i < j < |open| ==> open[j] != e
  {
    if open == [] then -1 else if Top(open) == e then |open| - 1 else Last(open[..|open| - 1], e)
  }

  datatype Scope = DefaultScope | TableScope | SelectScope

  predicate Stops(scope: Scope, e: Elem)
  {
    match scope
    case DefaultScope => EndsScope(e)
    case TableScope => e == Html || e == Table || e == Template
    case SelectScope => e != Option && e != Optgroup
  }

  // The last e is above everything that ends the scope.
  predicate InScope(open: seq<Elem>, e: Elem, scope: Scope)
  {
    var i := Last(open, e);
    i >= 0 && forall j :: i < j < |open| ==> !Stops(scope, open[j])
  }

  // has_an_element_in_specific_scope
  method HasInScope(open: seq<Elem>, e: Elem, scope: Scope) returns (found: bool)
    ensures found == InScope(open, e, scope)
  {
    hide Stops;
    var i := |open|;
    while i > 0
      invariant 0 <= i <= |open|
      invariant forall j :: i <= j < |open| ==> open[j] != e && !Stops(scope, open[j])
    {
      i := i - 1;
      if open[i] == e {
        return true;
      }
      if Stops(scope, open[i]) {
        return false;
      }
    }
    return false;
  }

  // Number of template elements.
  function Templates(open: seq<Elem>): (n: nat)
  {
    if open == [] then 0 else Templates(open[..|open| - 1]) + if Top(open) == Template then 1 else 0
  }

  lemma {:induction false} TemplatesBelow(open: seq<Elem>, k: nat)
    requires k <= |open| && forall i :: k <= i < |open| ==> open[i] != Template
    ensures Templates(open[..k]) == Templates(open)
  {
    if k == |open| {
      assert open[..k] == open;
    } else {
      assert open[..|open| - 1][..k] == open[..k];
      TemplatesBelow(open[..|open| - 1], k);
    }
  }

  lemma {:induction false} TemplatesOpen(open: seq<Elem>)
    ensures Templates(open) > 0 <==> Template in open
  {
    if open != [] {
      TemplatesOpen(open[..|open| - 1]);
      assert open == open[..|open| - 1] + [Top(open)];
    }
  }

  // What may stand below a part of a table.
  predicate MayHold(below: Elem, e: Elem)
  {
    if IsCell(e) then below == Tr || below == Template || below == Html
    else if e == Tr then IsSection(below) || below == Template || below == Html
    else if IsSection(e) || e == Caption || e == Colgroup then below == Table || below == Template || below == Html
    else true
  }

  // The element at i belongs to the options of a select element.
  predicate InChain(open: seq<Elem>, i: nat)
    requires i < |open|
  {
    open[i] == Select || ((open[i] == Option || open[i] == Optgroup) && i > 0 && InChain(open, i - 1))
  }

  // What may stand above a select element and its options: an option on the
  // select or on a group, a group on the select.
  predicate MayFollow(below: Elem, e: Elem)
  {
    e == Template || (e == Option && below != Option) || (e == Optgroup && below == Select)
  }

  // The element at i stands where it may.
  predicate Placed(open: seq<Elem>, i: nat)
    requires 0 < i < |open|
  {
    && open[i] != Html && open[i] != Col && open[i] != Input
    && MayHold(open[i - 1], open[i])
    && (InChain(open, i - 1) ==> MayFollow(open[i - 1], open[i]))
    && (open[i - 1] == Colgroup ==> open[i] == Template)
  }

  // html at the bottom, body right above it in a document and nowhere else.
  predicate Shaped(fragment: bool, open: seq<Elem>)
  {
    && open != [] && open[0] == Html
    && (forall i {:trigger Placed(open, i)} :: 0 < i < |open| ==> Placed(open, i))
    && (!fragment ==> |open| > 1 && open[1] == Body)
    && (forall i :: 0 < i < |open| && open[i] == Body ==> i == 1 && !fragment)
  }

  // The topmost structural element accounts for the mode, or the fragment's
  // context does.
  ghost predicate GovernedBy(fragment: bool, mode: Mode, open: seq<Elem>, c: nat)
  {
    && c < |open| && (Governs(mode, open[c]) || (c == 0 && fragment && mode != InCell))
    && forall j :: c < j < |open| ==> !IsStructural(open[j])
  }

  ghost predicate Governed(fragment: bool, mode: Mode, open: seq<Elem>)
  {
    exists c :: GovernedBy(fragment, mode, open, c)
  }

  lemma {:induction false} ChainPrefix(open: seq<Elem>, k: nat, i: nat)
    requires i < k <= |open|
    ensures InChain(open[..k], i) == InChain(open, i)
  {
    if i > 0 { ChainPrefix(open, k, i - 1); }
  }

  // Popping keeps the shape, as long as body stays.
  lemma ShapedPrefix(fragment: bool, open: seq<Elem>, k: nat)
    requires Shaped(fragment, open) && (if fragment then 1 else 2) <= k <= |open|
    ensures Shaped(fragment, open[..k])
  {
    forall i | 0 < i < k ensures Placed(open[..k], i) {
      assert Placed(open, i);
      ChainPrefix(open, k, i - 1);
    }
  }

  lemma ShapedPush(fragment: bool, open: seq<Elem>, e: Elem)
    requires Shaped(fragment, open) && e != Html && e != Col && e != Input && e != Body && MayHold(Top(open), e)
    requires InChain(open, |open| - 1) ==> MayFollow(Top(open), e)
    requires Top(open) == Colgroup ==> e == Template
    ensures Shaped(fragment, open + [e])
  {
    hide Placed, InChain, MayHold;
    var o := open + [e];
    assert o[..|open|] == open;
    TopPlaced(open, e);
    forall i | 0 < i < |o| ensures Placed(o, i) {
      if i < |open| {
        PlacedPrefix(o, |open|, i);
      }
    }
  }

  lemma TopPlaced(open: seq<Elem>, e: Elem)
    requires open != [] && e != Html && e != Col && e != Input && MayHold(Top(open), e)
    requires InChain(open, |open| - 1) ==> MayFollow(Top(open), e)
    requires Top(open) == Colgroup ==> e == Template
    ensures Placed(open + [e], |open|)
  {
    var o := open + [e];
    assert o[..|open|] == open;
    ChainPrefix(o, |open|, |open| - 1);
    hide InChain;
  }

  lemma PlacedPrefix(open: seq<Elem>, k: nat, i: nat)
    requires 0 < i < k <= |open|
    ensures Placed(open[..k], i) == Placed(open, i)
  {
    ChainPrefix(open, k, i - 1);
    hide InChain;
  }

  // The chain of a select reaches to the top if nothing else is open above it.
  lemma {:induction false} ChainFrom(fragment: bool, open: seq<Elem>, i: nat)
    requires Shaped(fragment, open) && 0 < i < |open|
    requires forall j :: i < j < |open| ==> open[j] != Template && open[j] != Select
    ensures InChain(open, |open| - 1) <==> InChain(open, i)
    decreases |open| - i
  {
    if i < |open| - 1 {
      ChainFrom(fragment, open, i + 1);
      assert Placed(open, i + 1);
    }
  }

  lemma NoChain(fragment: bool, open: seq<Elem>)
    requires Shaped(fragment, open) && forall j :: 0 < j < |open| ==> open[j] != Template && open[j] != Select
    ensures !InChain(open, |open| - 1)
  {
    if |open| > 1 {
      ChainFrom(fragment, open, 1);
    }
  }

  // Above an element in scope nothing structural is open, unless a select is
  // being filled.
  lemma PlainAbove(fragment: bool, open: seq<Elem>, k: nat)
    requires Shaped(fragment, open) && 0 < k < |open| && !InChain(open, |open| - 1)
    requires open[k] == P || open[k] == Div
    requires forall j :: k < j < |open| ==> !EndsScope(open[j])
    ensures forall j :: k < j < |open| ==> !IsStructural(open[j])
  {
    var s := Last(open, Select);
    if s > k {
      ChainFrom(fragment, open, s);
    }
    forall j | k < j < |open| ensures !IsStructural(open[j]) {
      NotAPart(fragment, open, k, j);
    }
  }

  lemma NotAPart(fragment: bool, open: seq<Elem>, k: nat, j: nat)
    requires Shaped(fragment, open) && 0 < k < j < |open| && (open[k] == P || open[k] == Div)
    requires forall i :: k < i < |open| ==> !EndsScope(open[i])
    ensures IsStructural(open[j]) ==> open[j] == Select
  {
    hide Shaped, Placed;
    OnPart(fragment, open, j);
    NotHtml(fragment, open, j);
    if j - 1 > k {
      OnPart(fragment, open, j - 1);
    }
  }

  lemma NotHtml(fragment: bool, open: seq<Elem>, j: nat)
    requires Shaped(fragment, open) && 0 < j < |open|
    ensures open[j] != Html && open[j] != Col && open[j] != Input && (open[j - 1] == Colgroup ==> open[j] == Template)
    ensures open[j] == Body ==> j == 1
  {
    assert Placed(open, j);
  }

  // What is in scope can be closed: it is not html, and no template is above it.
  lemma ScopedAbove(fragment: bool, open: seq<Elem>, e: Elem, scope: Scope)
    requires Shaped(fragment, open) && InScope(open, e, scope) && e != Html
    ensures Last(open, e) > 0 && forall j :: Last(open, e) < j < |open| ==> open[j] != Template
  {
    forall j | Last(open, e) < j < |open| ensures open[j] != Template {
      assert !Stops(scope, open[j]);
    }
  }

  // The options at the top belong to a select element in select scope.
  lemma {:induction false} ChainScoped(fragment: bool, open: seq<Elem>)
    requires Shaped(fragment, open) && InChain(open, |open| - 1)
    ensures InScope(open, Select, SelectScope)
  {
    var s := ChainSelect(open, |open| - 1);
    assert Last(open, Select) == s;
  }

  lemma {:induction false} ChainSelect(open: seq<Elem>, i: nat) returns (s: nat)
    requires i < |open| && InChain(open, i)
    ensures s <= i && open[s] == Select && forall j :: s < j <= i ==> open[j] == Option || open[j] == Optgroup
  {
    s := i;
    if open[i] != Select {
      s := ChainSelect(open, i - 1);
    }
  }

  // No cell stands above one that is in table scope.
  lemma NoCellAbove(fragment: bool, open: seq<Elem>, e: Elem)
    requires Shaped(fragment, open) && IsCell(e) && InScope(open, e, TableScope)
    ensures Last(open, e) > 0 && forall j :: Last(open, e) < j < |open| ==> !IsCell(open[j])
  {
    assert open[0] == Html;
    forall j | Last(open, e) < j < |open| ensures !IsCell(open[j]) {
      if IsCell(open[j]) { NoCellBetween(fragment, open, Last(open, e), j); }
    }
  }

  // td and th are not both in table scope.
  lemma OneCell(fragment: bool, open: seq<Elem>)
    requires Shaped(fragment, open)
    ensures !(InScope(open, Td, TableScope) && InScope(open, Th, TableScope))
  {
    hide Shaped, InScope;
    if InScope(open, Td, TableScope) && InScope(open, Th, TableScope) {
      NoCellAbove(fragment, open, Td);
      NoCellAbove(fragment, open, Th);
    }
  }

  lemma NoCellBetween(fragment: bool, open: seq<Elem>, c: nat, d: nat)
    requires Shaped(fragment, open) && 0 < c < d < |open| && IsCell(open[c]) && IsCell(open[d])
    ensures exists j :: c < j < d && Stops(TableScope, open[j])
  {
    hide Shaped, Placed;
    OnPart(fragment, open, d);
    if !Stops(TableScope, open[d - 1]) {
      OnPart(fragment, open, d - 1);
      if !Stops(TableScope, open[d - 2]) {
        OnPart(fragment, open, d - 2);
      }
    }
  }

  lemma OnPart(fragment: bool, open: seq<Elem>, i: nat)
    requires Shaped(fragment, open) && 0 < i < |open|
    ensures MayHold(open[i - 1], open[i])
  {
    assert Placed(open, i);
  }

  // With no template open, the part that accounts for the mode is in table scope.
  lemma PartScoped(open: seq<Elem>, m: Mode, c: nat)
    requires Shaped(false, open) && Template !in open && GovernedBy(false, m, open, c)
    ensures open[c] in open && InScope(open, open[c], TableScope) && Last(open, open[c]) == c
    ensures m == InCell || m == InCaption || m == InRow || m == InTableBody || m == InColumnGroup || m == InTable ==>
            open[c] != Template
    ensures m == InColumnGroup ==> c == |open| - 1
  {
    assert open[c] in open;
    assert open[0] == Html;
    assert c + 1 < |open| ==> Placed(open, c + 1);
  }

  // The elements above a table that lead to a part are those that belong there.
  lemma Ancestors(open: seq<Elem>, n: nat)
    requires Shaped(false, open) && Template !in open && n < |open|
    ensures IsCell(open[n]) ==> n > 4 && open[n - 1] == Tr && IsSection(open[n - 2]) && open[n - 3] == Table
    ensures open[n] == Tr ==> n > 3 && IsSection(open[n - 1]) && open[n - 2] == Table
    ensures IsSection(open[n]) || open[n] == Caption || open[n] == Colgroup ==> n > 2 && open[n - 1] == Table
  {
    hide Shaped, Placed;
    HtmlAndBody(open);
    if n > 0 {
      StandsOn(open, n);
      if n > 1 {
        StandsOn(open, n - 1);
        if n > 2 {
          StandsOn(open, n - 2);
        }
      }
    }
    NoneOf(open, n);
  }

  lemma StandsOn(open: seq<Elem>, i: nat)
    requires Shaped(false, open) && Template !in open && 0 < i < |open|
    ensures MayHold(open[i - 1], open[i]) && open[i - 1] != Template && (open[i - 1] == Html ==> i == 1)
    ensures i == 1 ==> open[i] == Body
    ensures i == 2 ==> open[i - 1] == Body
  {
    NoneOf(open, i);
    NoneOf(open, i - 1);
    assert Placed(open, i);
  }

  lemma NoneOf(open: seq<Elem>, i: nat)
    requires Shaped(false, open) && Template !in open && i < |open|
    ensures open[i] != Template && (open[i] == Html ==> i == 0) && (i == 1 ==> open[i] == Body)
  {
    assert open[i] in open;
    if i > 0 { assert Placed(open, i); }
  }

  // Below every part there is a table in table scope.
  lemma TableBelow(open: seq<Elem>, m: Mode, c: nat)
    requires Shaped(false, open) && Template !in open && GovernedBy(false, m, open, c) && m != InTemplate
    ensures InScope(open, Table, TableScope) && 0 < Last(open, Table) <= c
    ensures open[c] != Table ==> Last(open, Table) < c
  {
    hide Shaped, InScope, Last, MayHold;
    GovernorIsPart(open, m, c);
    Ancestors(open, c);
    var t: nat :=
      if open[c] == Table then c else if IsCell(open[c]) then c - 3 else if open[c] == Tr then c - 2 else c - 1;
    TableAt(open, c, t);
  }

  lemma GovernorIsPart(open: seq<Elem>, m: Mode, c: nat)
    requires Shaped(false, open) && Template !in open && GovernedBy(false, m, open, c) && m != InTemplate
    ensures c > 1
    ensures (open[c] == Table || IsCell(open[c]) || open[c] == Tr || IsSection(open[c]) || open[c] == Caption
              || open[c] == Colgroup)
  {
    NoneOf(open, c);
  }

  lemma TableAt(open: seq<Elem>, c: nat, t: nat)
    requires 0 < t <= c < |open| && open[t] == Table
    requires forall j :: t < j <= c ==>
               IsCell(open[j]) || open[j] == Tr || IsSection(open[j]) || open[j] == Caption || open[j] == Colgroup
    requires forall j :: c < j < |open| ==> !IsStructural(open[j])
    ensures InScope(open, Table, TableScope) && Last(open, Table) == t
  {
    LastIs(open, Table, t);
  }

  lemma HtmlAndBody(open: seq<Elem>)
    requires Shaped(false, open)
    ensures |open| > 1 && open[0] == Html && open[1] == Body
  {
  }

  lemma LastIs(open: seq<Elem>, e: Elem, i: nat)
    requires i < |open| && open[i] == e && forall j :: i < j < |open| ==> open[j] != e
    ensures Last(open, e) == i
  {
  }

  // In every state the cell that accounts for the mode is in table scope.
  lemma CellScoped(fragment: bool, open: seq<Elem>)
    requires Shaped(fragment, open) && Governed(fragment, InCell, open)
    ensures InScope(open, Td, TableScope) || InScope(open, Th, TableScope)
  {
    hide Shaped, Last;
    var c: nat :| GovernedBy(fragment, InCell, open, c);
    assert c <= Last(open, open[c]);
    forall j | Last(open, open[c]) < j < |open| ensures !Stops(TableScope, open[j]) {
      assert !IsStructural(open[j]);
    }
  }
}
