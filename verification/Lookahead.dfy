/** The data state of gumbo-parser/src/tokenizer.c read with lookahead: which
    token stands at a position and where it ends, without states. */
module Lookahead {
  import opened LexStates
  import R = RawText

  datatype Token = Char(c: int) | Tag(start: bool, name: seq<int>) | CommentToken(text: seq<int>) | DoctypeToken | Eof

  // A token and the position behind it. Character references and CDATA sections
  // are left unread.
  datatype Reading = Reads(token: Token, end: nat) | Unread

  predicate Stands(s: seq<int>, k: nat, c: char)
  {
    k < |s| && s[k] == c as int
  }

  // The first greater-than sign from k on, or the end.
  function Closer(s: seq<int>, k: nat): (e: nat)
    requires k <= |s|
    ensures k <= e <= |s| && (forall i :: k <= i < e ==> s[i] != '>' as int) && (e < |s| ==> s[e] == '>' as int)
    decreases |s| - k
  {
    if k == |s| || s[k] == '>' as int then k else Closer(s, k + 1)
  }

  function Behind(s: seq<int>, e: nat): (r: nat)
    requires e <= |s|
    ensures e <= r <= |s|
  {
    if e < |s| then e + 1 else e
  }

  // Names are lower-cased, and NUL is replaced.
  function NameCode(c: int): (r: int)
  {
    if c == 0 then R.REPLACEMENT else R.LowerCode(c)
  }

  function NameCodes(s: seq<int>): (r: seq<int>)
    ensures |r| == |s| && forall i :: 0 <= i < |s| ==> r[i] == NameCode(s[i])
  {
    seq(|s|, i requires 0 <= i < |s| => NameCode(s[i]))
  }

  // The end of a tag's name.
  function NameStop(s: seq<int>, k: nat): (e: nat)
    requires k <= |s|
    ensures k <= e <= |s| && (forall i :: k <= i < e ==> !EndsAttrName(s[i])) && (e < |s| ==> EndsAttrName(s[e]))
    decreases |s| - k
  {
    if k == |s| || EndsAttrName(s[k]) then k else NameStop(s, k + 1)
  }

  // How the rest of a tag goes: it is closed, it is broken off by the end of the
  // input, or a value has an ampersand.
  datatype Close = Closed(end: nat) | Broken | Deferred

  // Between two attributes.
  function Attributes(s: seq<int>, k: nat): (r: Close)
    requires k <= |s|
    ensures r.Closed? ==> k < r.end <= |s|
    decreases |s| - k, 1
  {
    if k == |s| then Broken
    else if s[k] == '>' as int then Closed(k + 1)
    else if R.IsSpace(s[k]) || s[k] == '/' as int then Attributes(s, k + 1)
    else AttrNameRest(s, k + 1)
  }

  // Behind the first character of a name, which may be any.
  function AttrNameRest(s: seq<int>, k: nat): (r: Close)
    requires k <= |s|
    ensures r.Closed? ==> k < r.end <= |s|
    decreases |s| - k, 3
  {
    if k == |s| then Broken
    else if EndsAttrName(s[k]) || s[k] == '=' as int then AfterName(s, k)
    else AttrNameRest(s, k + 1)
  }

  function AfterName(s: seq<int>, k: nat): (r: Close)
    requires k <= |s|
    ensures r.Closed? ==> k < r.end <= |s|
    decreases |s| - k, 2
  {
    if k == |s| then Broken
    else if R.IsSpace(s[k]) then AfterName(s, k + 1)
    else if s[k] == '=' as int then ValueAt(s, k + 1)
    else Attributes(s, k)
  }

  function ValueAt(s: seq<int>, k: nat): (r: Close)
    requires k <= |s|
    ensures r.Closed? ==> k < r.end <= |s|
    decreases |s| - k, 3
  {
    if k == |s| then Broken
    else if R.IsSpace(s[k]) then ValueAt(s, k + 1)
    else if s[k] == '>' as int then Closed(k + 1)
    else if s[k] == '"' as int || s[k] == '\'' as int then QuotedRest(s, k + 1, s[k])
    else UnquotedRest(s, k)
  }

  // Nothing but the same quote ends a quoted value.
  function QuotedRest(s: seq<int>, k: nat, quote: int): (r: Close)
    requires k <= |s|
    ensures r.Closed? ==> k < r.end <= |s|
    decreases |s| - k, 2
  {
    if k == |s| then Broken
    else if s[k] == quote then Attributes(s, k + 1)
    else if s[k] == '&' as int then Deferred
    else QuotedRest(s, k + 1, quote)
  }

  function UnquotedRest(s: seq<int>, k: nat): (r: Close)
    requires k <= |s|
    ensures r.Closed? ==> k < r.end <= |s|
    decreases |s| - k, 2
  {
    if k == |s| then Broken
    else if R.IsSpace(s[k]) || s[k] == '>' as int then Attributes(s, k)
    else if s[k] == '&' as int then Deferred
    else UnquotedRest(s, k + 1)
  }

  function TagReading(s: seq<int>, start: bool, name: seq<int>, close: Close): (r: Reading)
  {
    match close
    case Closed(e) => Reads(Tag(start, name), e)
    case Broken => Reads(Eof, |s|)
    case Deferred => Unread
  }

  // A tag whose name goes on at k.
  function TagFrom(s: seq<int>, start: bool, name: seq<int>, k: nat): (r: Reading)
    requires k <= |s|
    ensures r.Reads? ==> k <= r.end <= |s|
  {
    var e := NameStop(s, k);
    TagReading(s, start, name + NameCodes(s[k..e]), Attributes(s, e))
  }

  // A stretch of a comment and the position behind the whole comment.
  datatype Piece = Piece(text: seq<int>, end: nat)

  predicate Arrow(s: seq<int>, k: nat)
  {
    Stands(s, k, '-') && Stands(s, k + 1, '-') && Stands(s, k + 2, '>')
  }

  predicate BangArrow(s: seq<int>, k: nat)
  {
    Stands(s, k, '-') && Stands(s, k + 1, '-') && Stands(s, k + 2, '!') && Stands(s, k + 3, '>')
  }

  // What the end of the input takes for a started end of the comment.
  predicate Started(rest: seq<int>)
  {
    rest == ['-' as int] || rest == ['-' as int, '-' as int] || rest == ['-' as int, '-' as int, '!' as int]
  }

  // A comment goes on to the first "-->" or "--!>".
  function CommentFrom(s: seq<int>, k: nat): (p: Piece)
    requires k <= |s|
    ensures k <= p.end <= |s|
    decreases |s| - k
  {
    if Arrow(s, k) then Piece([], k + 3)
    else if BangArrow(s, k) then Piece([], k + 4)
    else if k == |s| || Started(s[k..]) then Piece([], |s|)
    else
      var p := CommentFrom(s, k + 1);
      Piece(R.Clean([s[k]]) + p.text, p.end)
  }

  function CommentReading(text: seq<int>, p: Piece): (r: Reading)
  {
    Reads(CommentToken(text + p.text), p.end)
  }

  // Behind "<!--": ">" and "->" end the comment at once.
  function CommentOpen(s: seq<int>, k: nat): (r: Reading)
    requires k <= |s|
    ensures r.Reads? ==> k <= r.end <= |s|
  {
    if Stands(s, k, '>') then Reads(CommentToken([]), k + 1)
    else if Stands(s, k, '-') && Stands(s, k + 1, '>') then Reads(CommentToken([]), k + 2)
    else CommentReading([], CommentFrom(s, k))
  }

  // Anything else that starts like a declaration is a comment up to the first
  // greater-than sign.
  function Bogus(s: seq<int>, text: seq<int>, k: nat): (r: Reading)
    requires k <= |s|
    ensures r.Reads? ==> k <= r.end <= |s|
  {
    var e := Closer(s, k);
    Reads(CommentToken(text + R.Clean(s[k..e])), Behind(s, e))
  }

  function WordAt(s: seq<int>, k: nat, n: nat): (w: seq<int>)
  {
    if k + n <= |s| then s[k..k + n] else []
  }

  const DOCTYPE: seq<int> := [100, 111, 99, 116, 121, 112, 101]
  const CDATA: seq<int> := [91, 67, 68, 65, 84, 65, 91]

  // Behind "<!". A doctype goes on to the first greater-than sign, whatever
  // quotes it has.
  function Declaration(s: seq<int>, foreign: bool, k: nat): (r: Reading)
    requires k <= |s|
    ensures r.Reads? ==> k <= r.end <= |s|
  {
    if Stands(s, k, '-') && Stands(s, k + 1, '-') then CommentOpen(s, k + 2)
    else if R.LowerAll(WordAt(s, k, 7)) == DOCTYPE then
      assert k + 7 <= |s|;
      Reads(DoctypeToken, Behind(s, Closer(s, k + 7)))
    else if WordAt(s, k, 7) == CDATA && foreign then Unread
    else Bogus(s, [], k)
  }

  // The token at k in the data state.
  function Read(s: seq<int>, foreign: bool, k: nat): (r: Reading)
    requires k <= |s|
    ensures r.Reads? ==> r.end <= |s| && (r.token != Eof ==> k < r.end)
    decreases |s| - k
  {
    if k == |s| then Reads(Eof, k)
    else if s[k] == '&' as int then Unread
    else if s[k] != '<' as int then Reads(Char(s[k]), k + 1)
    else if k + 1 < |s| && R.IsAlpha(s[k + 1]) then TagFrom(s, true, [], k + 1)
    else if Stands(s, k + 1, '!') then Declaration(s, foreign, k + 2)
    else if Stands(s, k + 1, '?') then Bogus(s, [], k + 1)
    else if !Stands(s, k + 1, '/') || k + 2 == |s| then Reads(Char('<' as int), k + 1)
    else if R.IsAlpha(s[k + 2]) then TagFrom(s, false, [], k + 2)
    else if s[k + 2] == '>' as int then Read(s, foreign, k + 3)
    else Bogus(s, [], k + 2)
  }

  // All tokens from k on, as far as they are read here.
  function ReadAll(s: seq<int>, foreign: bool, k: nat): (tokens: seq<Token>)
    requires k <= |s|
    decreases |s| - k
  {
    var r := Read(s, foreign, k);
    if r.Unread? then []
    else if r.token == Eof then [Eof]
    else [r.token] + ReadAll(s, foreign, r.end)
  }

  // Where the lexer is, as far as it matters for the token that is coming.
  datatype View = View(state: State, mark: nat, isStart: bool, name: seq<int>, temporary: seq<int>, foreign: bool)

  // The token that is coming at position q.
  function Ahead(s: seq<int>, v: View, q: nat): (r: Reading)
    requires q <= |s|
  {
    match v.state
    case Text(t) => if t == Data then Read(s, v.foreign, q) else Unread
    case Guess(g) =>
      if g == TagOpen && q >= 1 && v.mark == q - 1 && s[q - 1] == '<' as int then Read(s, v.foreign, q - 1)
      else if g == EndTagOpen && q >= 2 && v.mark == q - 2 && s[q - 2] == '<' as int && s[q - 1] == '/' as int then
        Read(s, v.foreign, q - 2)
      else Unread
    case InTag(i) => if i == TagName then TagFrom(s, v.isStart, v.name, q)
                     else TagReading(s, v.isStart, v.name, CloseAhead(s, i, q))
    case Com(m) => CommentAhead(s, m, v.temporary, v.foreign, q)
    case Doc(_) => Reads(DoctypeToken, Behind(s, Closer(s, q)))
    case _ => Unread
  }

  function CloseAhead(s: seq<int>, i: TagState, q: nat): (r: Close)
    requires q <= |s|
  {
    match i
    case AttrName => AttrNameRest(s, q)
    case AfterAttrName => AfterName(s, q)
    case BeforeAttrValue => ValueAt(s, q)
    case DoubleQuoted => QuotedRest(s, q, '"' as int)
    case SingleQuoted => QuotedRest(s, q, '\'' as int)
    case Unquoted => UnquotedRest(s, q)
    case _ => Attributes(s, q)
  }

  // The comment from the last n characters on, which have been read but not kept.
  function Kept(s: seq<int>, text: seq<int>, q: nat, seen: string): (r: Reading)
    requires q <= |s|
  {
    if q >= |seen| && s[q - |seen|..q] == seq(|seen|, i requires 0 <= i < |seen| => seen[i] as int)
    then CommentReading(text, CommentFrom(s, q - |seen|)) else Unread
  }

  function CommentAhead(s: seq<int>, m: CommentState, text: seq<int>, foreign: bool, q: nat): (r: Reading)
    requires q <= |s|
  {
    match m
    case BogusComment => Bogus(s, text, q)
    case MarkupDeclaration => if text == [] then Declaration(s, foreign, q) else Unread
    case CommentStart => if text == [] then CommentOpen(s, q) else Unread
    case CommentStartDash =>
      if text != [] then Unread else if Stands(s, q, '>') then Reads(CommentToken([]), q + 1) else Kept(s, text, q, "-")
    case Comment | CommentLt | CommentLtBang => Kept(s, text, q, "")
    case CommentLtBangDash | CommentEndDash => Kept(s, text, q, "-")
    case CommentLtBangDashDash | CommentEnd => Kept(s, text, q, "--")
    case CommentEndBang => Kept(s, text, q, "--!")
  }

  lemma NameStep(s: seq<int>, start: bool, name: seq<int>, k: nat)
    requires k < |s| && !EndsAttrName(s[k])
    ensures TagFrom(s, start, name, k) == TagFrom(s, start, name + [NameCode(s[k])], k + 1)
  {
    hide Attributes;
    var e := NameStop(s, k);
    assert s[k..e] == [s[k]] + s[k + 1..e];
    assert name + NameCodes(s[k..e]) == name + [NameCode(s[k])] + NameCodes(s[k + 1..e]);
  }

  lemma NameEnds(s: seq<int>, start: bool, name: seq<int>, k: nat)
    requires k <= |s| && (k == |s| || EndsAttrName(s[k]))
    ensures TagFrom(s, start, name, k) == TagReading(s, start, name, Attributes(s, k))
  {
    hide Attributes;
    assert name + NameCodes(s[k..k]) == name;
  }

  lemma CleanOne(c: int)
    ensures R.Clean([c]) == [if c == 0 then R.REPLACEMENT else c]
  {
  }

  lemma BogusStep(s: seq<int>, text: seq<int>, k: nat)
    requires k < |s| && s[k] != '>' as int
    ensures Bogus(s, text, k) == Bogus(s, text + [if s[k] == 0 then R.REPLACEMENT else s[k]], k + 1)
  {
    var e := Closer(s, k);
    assert s[k..e] == [s[k]] + s[k + 1..e];
    assert text + R.Clean(s[k..e]) == text + [if s[k] == 0 then R.REPLACEMENT else s[k]] + R.Clean(s[k + 1..e]);
  }

  lemma BogusEnds(s: seq<int>, text: seq<int>, k: nat)
    requires k <= |s| && (k == |s| || s[k] == '>' as int)
    ensures Bogus(s, text, k) == Reads(CommentToken(text), Behind(s, k))
  {
    assert text + R.Clean(s[k..k]) == text;
  }

  // No greater-than sign is passed over.
  lemma {:induction false} CloserFrom(s: seq<int>, k: nat, m: nat)
    requires k <= m <= |s| && forall i :: k <= i < m ==> s[i] != '>' as int
    ensures Closer(s, k) == Closer(s, m)
    decreases m - k
  {
    if k < m {
      CloserFrom(s, k + 1, m);
    }
  }

  lemma CommentStep(s: seq<int>, text: seq<int>, k: nat)
    requires k < |s| && !Arrow(s, k) && !BangArrow(s, k) && !Started(s[k..])
    ensures CommentReading(text, CommentFrom(s, k))
            == CommentReading(text + [if s[k] == 0 then R.REPLACEMENT else s[k]], CommentFrom(s, k + 1))
  {
    CleanOne(s[k]);
    var p := CommentFrom(s, k + 1);
    assert text + (R.Clean([s[k]]) + p.text) == text + R.Clean([s[k]]) + p.text;
  }

  // Something has been read that cannot be the start of the end of the comment.
  lemma Passed(s: seq<int>, text: seq<int>, k: nat, n: nat, kept: seq<int>)
    requires 1 <= n <= 3 && k + n <= |s| && kept == s[k..k + n]
    requires kept == ['-' as int] || kept == ['-' as int, '-' as int] || kept == ['-' as int, '-' as int, '!' as int]
    requires k + n < |s| && (n >= 2 ==> s[k + n] != '>' as int)
    requires n <= 2 ==> s[k + n] != '-' as int
    requires n == 2 ==> s[k + n] != '!' as int
    ensures CommentReading(text, CommentFrom(s, k)) == CommentReading(text + kept, CommentFrom(s, k + n))
  {
    hide CommentFrom, CommentReading;
    forall i | 0 <= i < n ensures s[k + i] == kept[i] {
      assert s[k..k + n][i] == s[k + i];
    }
    NotStarted(s, k, n);
    CommentStep(s, text, k);
    assert text + kept[..1] == text + [s[k]];
    if n >= 2 {
      NotStarted(s, k + 1, n - 1);
      CommentStep(s, text + kept[..1], k + 1);
      assert text + kept[..2] == text + kept[..1] + [s[k + 1]];
    }
    if n == 3 {
      NotStarted(s, k + 2, 1);
      CommentStep(s, text + kept[..2], k + 2);
      assert text + kept[..3] == text + kept[..2] + [s[k + 2]];
    }
    assert kept[..n] == kept;
  }

  lemma NotStarted(s: seq<int>, k: nat, n: nat)
    requires 1 <= n <= 3 && k + n < |s|
    requires s[k] == '-' as int || s[k] == '!' as int
    requires n >= 2 ==> s[k + 1] == '-' as int || s[k + 1] == '!' as int
    requires n == 1 ==> s[k + 1] != '-' as int || s[k] == '!' as int
    requires n == 2 ==> s[k + 2] != '>' as int && (s[k + 2] != '!' as int || s[k + 1] == '!' as int)
    requires n == 3 ==> s[k + 2] == '!' as int && s[k + 3] != '>' as int
    ensures !Started(s[k..]) && !Arrow(s, k) && !BangArrow(s, k)
  {
    assert |s[k..]| > n && s[k..][0] == s[k] && s[k..][1] == s[k + 1];
    if n >= 2 { assert s[k..][2] == s[k + 2]; }
  }

  // What each step of a state leaves of the token that is coming.

  lemma DataAhead(s: seq<int>, v: View, q: nat)
    requires q <= |s| && v.state.Text?
    ensures var g := Ahead(s, v, q);
            if v.state != Text(Data) then g == Unread
            else if q == |s| then g == Reads(Eof, q)
            else if s[q] == '&' as int then g == Unread
            else if s[q] == '<' as int then g == Ahead(s, v.(state := Guess(TagOpen), mark := q), q + 1)
            else g == Reads(Char(s[q]), q + 1)
  {
    hide TagFrom, Declaration, Bogus;
  }

  lemma TagOpenAhead(s: seq<int>, v: View, q: nat)
    requires q <= |s| && v.state == Guess(TagOpen)
    ensures Ahead(s, v, q).Reads? ==> v.mark + 1 == q && Stands(s, v.mark, '<')
    ensures var g, c := Ahead(s, v, q), At(s, q);
            g.Reads? ==>
            (if c == '!' as int then g == Ahead(s, v.(state := Com(MarkupDeclaration), temporary := []), q + 1)
             else if c == '/' as int then g == Ahead(s, v.(state := Guess(EndTagOpen)), q + 1)
             else if c == '?' as int then g == Ahead(s, v.(state := Com(BogusComment), temporary := []), q)
             else if R.IsAlpha(c) then g == Ahead(s, v.(state := InTag(TagName), isStart := true, name := []), q)
             else g == Reads(Char('<' as int), v.mark + 1))
  {
    hide TagFrom, Declaration, Bogus;
  }

  lemma EndTagOpenAhead(s: seq<int>, v: View, q: nat)
    requires q <= |s| && v.state == Guess(EndTagOpen) && (q < |s| ==> s[q] >= 0)
    ensures Ahead(s, v, q).Reads? ==> v.mark + 2 == q && Stands(s, v.mark, '<') && s[v.mark + 1] == '/' as int
    ensures var g, c := Ahead(s, v, q), At(s, q);
            g.Reads? ==>
            (if c == '>' as int then g == Ahead(s, v.(state := Text(Data)), q + 1)
             else if c == R.EOF then g == Reads(Char('<' as int), v.mark + 1)
             else if R.IsAlpha(c) then g == Ahead(s, v.(state := InTag(TagName), isStart := false, name := []), q)
             else g == Ahead(s, v.(state := Com(BogusComment), temporary := []), q))
  {
    hide TagFrom, Declaration, Bogus;
  }

  lemma TagNameAhead(s: seq<int>, v: View, q: nat)
    requires q <= |s| && v.state == InTag(TagName) && (q < |s| ==> s[q] >= 0)
    ensures var g, c := Ahead(s, v, q), At(s, q);
            if q == |s| then g == Reads(Eof, q)
            else if R.IsSpace(c) then g == Ahead(s, v.(state := InTag(BeforeAttrName)), q + 1)
            else if c == '/' as int then g == Ahead(s, v.(state := InTag(SelfClosing)), q + 1)
            else if c == '>' as int then g == Reads(Tag(v.isStart, v.name), q + 1)
            else g == Ahead(s, v.(name := v.name + [NameCode(c)]), q + 1)
  {
    hide TagFrom, NameCode;
    if q < |s| && !EndsAttrName(s[q]) {
      NameStep(s, v.isStart, v.name, q);
    } else {
      NameEnds(s, v.isStart, v.name, q);
    }
  }

  lemma AttrNameAhead(s: seq<int>, v: View, q: nat)
    requires q <= |s| && (q < |s| ==> s[q] >= 0)
    requires v.state == InTag(BeforeAttrName) || v.state == InTag(AttrName) || v.state == InTag(AfterAttrName)
    ensures var g, c, i := Ahead(s, v, q), At(s, q), v.state.i;
            if q == |s| then g == Reads(Eof, q) && Ahead(s, v.(state := InTag(AfterAttrName)), q) == g
            else if i == BeforeAttrName then
              if R.IsSpace(c) then g == Ahead(s, v, q + 1)
              else if EndsAttrName(c) then g == Ahead(s, v.(state := InTag(AfterAttrName)), q)
              else if c == '=' as int then g == Ahead(s, v.(state := InTag(AttrName)), q + 1)
              else g == Ahead(s, v.(state := InTag(AttrName)), q)
            else if i == AttrName then
              if EndsAttrName(c) then g == Ahead(s, v.(state := InTag(AfterAttrName)), q)
              else if c == '=' as int then g == Ahead(s, v.(state := InTag(BeforeAttrValue)), q + 1)
              else g == Ahead(s, v, q + 1)
            else
              if R.IsSpace(c) then g == Ahead(s, v, q + 1)
              else if c == '/' as int then g == Ahead(s, v.(state := InTag(SelfClosing)), q + 1)
              else if c == '=' as int then g == Ahead(s, v.(state := InTag(BeforeAttrValue)), q + 1)
              else if c == '>' as int then g == Reads(Tag(v.isStart, v.name), q + 1)
              else g == Ahead(s, v.(state := InTag(AttrName)), q)
  {
    hide QuotedRest, UnquotedRest, ValueAt;
    if q < |s| && v.state.i == AttrName && !R.IsSpace(s[q]) && (EndsAttrName(s[q]) || s[q] == '=' as int) {
      assert AttrNameRest(s, q) == AfterName(s, q);
    } else if q < |s| && v.state.i == AfterAttrName && !R.IsSpace(s[q]) && s[q] != '=' as int {
      assert AfterName(s, q) == Attributes(s, q);
      assert !EndsAttrName(s[q]) ==> Attributes(s, q) == AttrNameRest(s, q + 1);
    }
  }

  lemma BeforeAttrValueAhead(s: seq<int>, v: View, q: nat)
    requires q <= |s| && v.state == InTag(BeforeAttrValue)
    ensures var g, c := Ahead(s, v, q), At(s, q);
            if q == |s| then g == Ahead(s, v.(state := InTag(Unquoted)), q)
            else if R.IsSpace(c) then g == Ahead(s, v, q + 1)
            else if c == '"' as int then g == Ahead(s, v.(state := InTag(DoubleQuoted)), q + 1)
            else if c == '\'' as int then g == Ahead(s, v.(state := InTag(SingleQuoted)), q + 1)
            else if c == '>' as int then g == Reads(Tag(v.isStart, v.name), q + 1)
            else g == Ahead(s, v.(state := InTag(Unquoted)), q)
  {
    hide Attributes, AfterName, AttrNameRest;
  }

  lemma AttrValueAhead(s: seq<int>, v: View, q: nat)
    requires q <= |s| && IsAttrValue(v.state)
    ensures var g, c := Ahead(s, v, q), At(s, q);
            if q == |s| then g == Reads(Eof, q)
            else if c == '&' as int then g == Unread
            else if v.state == InTag(Unquoted) && R.IsSpace(c) then
              g == Ahead(s, v.(state := InTag(BeforeAttrName)), q + 1)
            else if v.state == InTag(Unquoted) && c == '>' as int then g == Reads(Tag(v.isStart, v.name), q + 1)
            else if c == '"' as int && v.state == InTag(DoubleQuoted) then
              g == Ahead(s, v.(state := InTag(AfterQuoted)), q + 1)
            else if c == '\'' as int && v.state == InTag(SingleQuoted) then
              g == Ahead(s, v.(state := InTag(AfterQuoted)), q + 1)
            else g == Ahead(s, v, q + 1)
  {
    hide AfterName, AttrNameRest;
    if q < |s| && v.state == InTag(Unquoted) && (R.IsSpace(s[q]) || s[q] == '>' as int) {
      assert UnquotedRest(s, q) == Attributes(s, q);
    }
  }

  lemma AfterValueAhead(s: seq<int>, v: View, q: nat)
    requires q <= |s| && (v.state == InTag(AfterQuoted) || v.state == InTag(SelfClosing))
    ensures var g, c := Ahead(s, v, q), At(s, q);
            if q == |s| then g == Reads(Eof, q)
            else if c == '>' as int then g == Reads(Tag(v.isStart, v.name), q + 1)
            else
              && g == Ahead(s, v.(state := InTag(BeforeAttrName)), q)
              && (R.IsSpace(c) ==> g == Ahead(s, v.(state := InTag(BeforeAttrName)), q + 1))
              && (c == '/' as int ==> g == Ahead(s, v.(state := InTag(SelfClosing)), q + 1))
  {
    hide AfterName, AttrNameRest;
  }

  lemma BogusAhead(s: seq<int>, v: View, q: nat)
    requires q <= |s| && v.state == Com(BogusComment)
    ensures var g := Ahead(s, v, q);
            if q == |s| then g == Reads(CommentToken(v.temporary), q)
            else if s[q] == '>' as int then g == Reads(CommentToken(v.temporary), q + 1)
            else g == Ahead(s, v.(temporary := v.temporary + [if s[q] == 0 then R.REPLACEMENT else s[q]]), q + 1)
  {
    hide Bogus;
    if q < |s| && s[q] != '>' as int {
      BogusStep(s, v.temporary, q);
    } else {
      BogusEnds(s, v.temporary, q);
    }
  }

  // Behind "<!", by the word that stands there.
  lemma DeclarationAhead(s: seq<int>, v: View, q: nat)
    requires q <= |s| && v.state == Com(MarkupDeclaration) && v.temporary == []
    ensures var g := Ahead(s, v, q);
            if Stands(s, q, '-') && Stands(s, q + 1, '-') then g == Ahead(s, v.(state := Com(CommentStart)), q + 2)
            else if R.LowerAll(WordAt(s, q, 7)) == DOCTYPE then
              q + 7 <= |s| && g == Ahead(s, v.(state := Doc(Doctype)), q + 7)
            else if WordAt(s, q, 7) == CDATA then
              q + 7 <= |s| && (v.foreign ==> g == Unread)
              && (!v.foreign ==> g == Ahead(s, v.(state := Com(BogusComment), temporary := CDATA), q + 7))
            else g == Ahead(s, v.(state := Com(BogusComment)), q)
  {
    hide CommentOpen, Bogus, Closer;
    if WordAt(s, q, 7) == CDATA && q + 7 <= |s| {
      BogusWord(s, q);
    }
  }

  lemma BogusWord(s: seq<int>, k: nat)
    requires k + 7 <= |s| && s[k..k + 7] == CDATA
    ensures Bogus(s, [], k) == Bogus(s, CDATA, k + 7)
  {
    forall i | k <= i < k + 7 ensures s[i] == CDATA[i - k] {
      assert s[k..k + 7][i - k] == s[i];
    }
    CloserFrom(s, k, k + 7);
    var e := Closer(s, k + 7);
    assert s[k..e] == CDATA + s[k + 7..e];
    assert [] + R.Clean(s[k..e]) == CDATA + R.Clean(s[k + 7..e]);
  }

  lemma CommentStartAhead(s: seq<int>, v: View, q: nat)
    requires q <= |s| && v.state == Com(CommentStart)
    ensures var g, c := Ahead(s, v, q), At(s, q);
            g.Reads? ==>
            v.temporary == []
            && if c == '>' as int then g == Reads(CommentToken(v.temporary), q + 1)
               else if c == '-' as int then g == Ahead(s, v.(state := Com(CommentStartDash)), q + 1)
               else g == Ahead(s, v.(state := Com(Comment)), q)
  {
    hide CommentFrom;
    assert s[q..q] == [];
    if q < |s| {
      assert s[q..q + 1] == [s[q]];
    }
  }

  lemma CommentStartDashAhead(s: seq<int>, v: View, q: nat)
    requires q <= |s| && v.state == Com(CommentStartDash)
    ensures var g, c := Ahead(s, v, q), At(s, q);
            g.Reads? ==>
            v.temporary == []
            && if c == '>' as int then g == Reads(CommentToken(v.temporary), q + 1)
               else if c == '-' as int then g == Ahead(s, v.(state := Com(CommentEnd)), q + 1)
               else if q == |s| then g == Reads(CommentToken(v.temporary), q)
               else g == Ahead(s, v.(state := Com(Comment), temporary := v.temporary + ['-' as int]), q)
  {
    hide CommentFrom;
    if Ahead(s, v, q).Reads? {
      if q == |s| {
        AtEnd(s, v.temporary, q, "-");
      } else if s[q] == '-' as int {
        assert s[q - 1..q][0] == s[q - 1];
        assert s[q - 1..q + 1] == [s[q - 1], s[q]];
      } else if s[q] != '>' as int {
        PassedAhead(s, v.temporary, q, "-");
        assert CodesOf("-") == ['-' as int];
      }
    }
  }

  // At the end of the input what was seen is dropped.
  lemma AtEnd(s: seq<int>, text: seq<int>, q: nat, seen: string)
    requires q == |s| && (seen == "" || seen == "-" || seen == "--" || seen == "--!") && Kept(s, text, q, seen).Reads?
    ensures Kept(s, text, q, seen) == Reads(CommentToken(text), q)
  {
    var k := q - |seen|;
    assert s[k..] == s[k..q];
    if seen != "" { assert s[k..][0] == '-' as int; }
    assert text + [] == text;
  }

  // Otherwise it belongs to the comment, unless it is the start of its end.
  lemma PassedAhead(s: seq<int>, text: seq<int>, q: nat, seen: string)
    requires q < |s| && (seen == "-" || seen == "--" || seen == "--!") && Kept(s, text, q, seen).Reads?
    requires |seen| >= 2 ==> s[q] != '>' as int
    requires |seen| <= 2 ==> s[q] != '-' as int
    requires |seen| == 2 ==> s[q] != '!' as int
    ensures Kept(s, text, q, seen) == Kept(s, text + CodesOf(seen), q, "")
  {
    hide CommentFrom;
    var k := q - |seen|;
    assert s[q..q] == [];
    assert s[k..q] == CodesOf(seen);
    Passed(s, text, k, |seen|, CodesOf(seen));
  }

  function CodesOf(w: string): (r: seq<int>)
    ensures |r| == |w| && forall i :: 0 <= i < |w| ==> r[i] == w[i] as int
  {
    seq(|w|, i requires 0 <= i < |w| => w[i] as int)
  }

  lemma CommentStateAhead(s: seq<int>, v: View, q: nat)
    requires q <= |s| && v.state == Com(Comment)
    ensures var g, c := Ahead(s, v, q), At(s, q);
            g.Reads? ==>
            (if q == |s| then g == Reads(CommentToken(v.temporary), q)
             else if c == '-' as int then g == Ahead(s, v.(state := Com(CommentEndDash)), q + 1)
             else var kept := v.temporary + [if c == 0 then R.REPLACEMENT else c];
                  && g == Ahead(s, v.(state := Com(Comment), temporary := kept), q + 1)
                  && g == Ahead(s, v.(state := Com(CommentLt), temporary := kept), q + 1))
  {
    hide CommentFrom;
    if Ahead(s, v, q).Reads? {
      if q == |s| {
        AtEnd(s, v.temporary, q, "");
      } else {
        assert s[q..q] == [] && s[q + 1..q + 1] == [] && s[q..q + 1] == [s[q]];
        if s[q] != '-' as int {
          assert s[q..][0] == s[q];
          CommentStep(s, v.temporary, q);
        }
      }
    }
  }

  lemma CommentLtAhead(s: seq<int>, v: View, q: nat)
    requires q <= |s| && v.state == Com(CommentLt)
    ensures var g, c := Ahead(s, v, q), At(s, q);
            g.Reads? ==>
            (if c == '!' as int || c == '<' as int then
               && g == Ahead(s, v.(state := Com(CommentLtBang), temporary := v.temporary + [c]), q + 1)
               && g == Ahead(s, v.(state := Com(CommentLt), temporary := v.temporary + [c]), q + 1)
             else g == Ahead(s, v.(state := Com(Comment)), q))
  {
    hide CommentFrom;
    if q < |s| {
      assert s[q..q] == [] && s[q + 1..q + 1] == [];
      if s[q] == '!' as int || s[q] == '<' as int {
        assert s[q..][0] == s[q];
        CommentStep(s, v.temporary, q);
      }
    }
  }

  lemma CommentLtBangAhead(s: seq<int>, v: View, q: nat)
    requires q <= |s| && v.state == Com(CommentLtBang)
    ensures var g := Ahead(s, v, q);
            g.Reads? ==>
            (if At(s, q) == '-' as int then g == Ahead(s, v.(state := Com(CommentLtBangDash)), q + 1)
             else g == Ahead(s, v.(state := Com(Comment)), q))
  {
    hide CommentFrom;
    assert s[q..q] == [];
    if q < |s| {
      assert s[q..q + 1] == [s[q]];
    }
  }

  lemma CommentLtBangDashAhead(s: seq<int>, v: View, q: nat)
    requires q <= |s| && v.state == Com(CommentLtBangDash)
    ensures var g := Ahead(s, v, q);
            g.Reads? ==>
            (if At(s, q) == '-' as int then g == Ahead(s, v.(state := Com(CommentLtBangDashDash)), q + 1)
             else g == Ahead(s, v.(state := Com(CommentEndDash)), q))
  {
    hide CommentFrom;
    if q < |s| && q >= 1 && s[q] == '-' as int {
      assert s[q - 1..q + 1] == s[q - 1..q] + [s[q]];
    }
  }

  lemma CommentLtBangDashDashAhead(s: seq<int>, v: View, q: nat)
    requires q <= |s| && v.state == Com(CommentLtBangDashDash)
    ensures Ahead(s, v, q) == Ahead(s, v.(state := Com(CommentEnd)), q)
  {
    hide CommentFrom;
  }

  lemma CommentEndDashAhead(s: seq<int>, v: View, q: nat)
    requires q <= |s| && v.state == Com(CommentEndDash)
    ensures var g := Ahead(s, v, q);
            g.Reads? ==>
            (if q == |s| then g == Reads(CommentToken(v.temporary), q)
             else if s[q] == '-' as int then g == Ahead(s, v.(state := Com(CommentEnd)), q + 1)
             else g == Ahead(s, v.(state := Com(Comment), temporary := v.temporary + CodesOf("-")), q))
  {
    hide CommentFrom;
    if Ahead(s, v, q).Reads? {
      if q == |s| {
        AtEnd(s, v.temporary, q, "-");
      } else if s[q] == '-' as int {
        assert s[q - 1..q + 1] == s[q - 1..q] + [s[q]];
      } else {
        PassedAhead(s, v.temporary, q, "-");
      }
    }
  }

  lemma CommentEndAhead(s: seq<int>, v: View, q: nat)
    requires q <= |s| && v.state == Com(CommentEnd)
    ensures var g := Ahead(s, v, q);
            g.Reads? ==>
            (if q == |s| then g == Reads(CommentToken(v.temporary), q)
             else if s[q] == '>' as int then g == Reads(CommentToken(v.temporary), q + 1)
             else if s[q] == '!' as int then g == Ahead(s, v.(state := Com(CommentEndBang)), q + 1)
             else if s[q] == '-' as int then g == Ahead(s, v.(temporary := v.temporary + ['-' as int]), q + 1)
             else g == Ahead(s, v.(state := Com(Comment), temporary := v.temporary + CodesOf("--")), q))
  {
    hide CommentFrom;
    if Ahead(s, v, q).Reads? {
      if q == |s| {
        AtEnd(s, v.temporary, q, "--");
      } else {
        Dashes(s, q);
        if s[q] == '>' as int {
          Ended(s, v.temporary, q - 2, 3);
        } else if s[q] == '!' as int {
          assert s[q - 2..q + 1] == s[q - 2..q] + [s[q]];
        } else if s[q] == '-' as int {
          assert |s[q - 2..]| >= 3 && s[q - 2..][2] == s[q];
          CommentStep(s, v.temporary, q - 2);
          assert s[q - 1..q + 1] == ['-' as int, '-' as int];
        } else {
          PassedAhead(s, v.temporary, q, "--");
        }
      }
    }
  }

  lemma Dashes(s: seq<int>, q: nat)
    requires 2 <= q <= |s| && s[q - 2..q] == seq(2, i requires 0 <= i < 2 => "--"[i] as int)
    ensures s[q - 2] == '-' as int && s[q - 1] == '-' as int
  {
    assert s[q - 2..q][0] == s[q - 2] && s[q - 2..q][1] == s[q - 1];
  }

  lemma Ended(s: seq<int>, text: seq<int>, k: nat, n: nat)
    requires k < |s| && if n == 3 then Arrow(s, k) else n == 4 && BangArrow(s, k)
    ensures CommentReading(text, CommentFrom(s, k)) == Reads(CommentToken(text), k + n)
  {
    assert text + [] == text;
  }

  lemma CommentEndBangAhead(s: seq<int>, v: View, q: nat)
    requires q <= |s| && v.state == Com(CommentEndBang)
    ensures var g := Ahead(s, v, q);
            g.Reads? ==>
            (if q == |s| then g == Reads(CommentToken(v.temporary), q)
             else if s[q] == '>' as int then g == Reads(CommentToken(v.temporary), q + 1)
             else if s[q] == '-' as int then
               g == Ahead(s, v.(state := Com(CommentEndDash), temporary := v.temporary + CodesOf("--!")), q + 1)
             else g == Ahead(s, v.(state := Com(Comment), temporary := v.temporary + CodesOf("--!")), q))
  {
    hide CommentFrom;
    if Ahead(s, v, q).Reads? {
      if q == |s| {
        AtEnd(s, v.temporary, q, "--!");
      } else {
        var w := s[q - 3..q];
        assert w[0] == s[q - 3] && w[1] == s[q - 2] && w[2] == s[q - 1];
        if s[q] == '>' as int {
          Ended(s, v.temporary, q - 3, 4);
        } else {
          PassedAhead(s, v.temporary, q, "--!");
          assert s[q..q + 1] == [s[q]];
        }
      }
    }
  }

  lemma DoctypeAhead(s: seq<int>, v: View, q: nat)
    requires q <= |s| && v.state.Doc?
    ensures Ahead(s, v, q) == Reads(DoctypeToken, Behind(s, Closer(s, q)))
  {
  }

  lemma WordIs(s: seq<int>, q: nat)
    requires q <= |s|
    ensures Stands(s, q, '-') && Stands(s, q + 1, '-') <==> q + 2 <= |s| && s[q..q + 2] == CodesOf("--")
    ensures CodesOf("[CDATA[") == CDATA
    ensures WordAt(s, q, 7) == CDATA <==> q + 7 <= |s| && s[q..q + 7] == CodesOf("[CDATA[")
    ensures R.LowerAll(WordAt(s, q, 7)) == DOCTYPE <==>
              q + 7 <= |s| && R.LowerAll(s[q..q + 7]) == R.LowerAll(CodesOf("DOCTYPE"))
  {
    assert CodesOf("--") == ['-' as int, '-' as int];
    assert CodesOf("[CDATA[") == CDATA;
    assert R.LowerAll(CodesOf("DOCTYPE")) == DOCTYPE;
    if q + 2 <= |s| {
      assert s[q..q + 2] == [s[q], s[q + 1]];
    }
  }
}
