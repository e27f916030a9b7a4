/** The states of the tokenizer in gumbo-parser/src/tokenizer.c, and the rank
    along which they hand on a character. */
module LexStates {
  import R = RawText

  datatype TextState =
    | Data | Rcdata | Rawtext | ScriptData | Plaintext | EscapedStart | EscapedStartDash | Escaped
    | EscapedDash | EscapedDashDash | DoubleEscapedStart | DoubleEscaped | DoubleEscapedDash
    | DoubleEscapedDashDash | DoubleEscapedLt | DoubleEscapedEnd

  datatype GuessState =
    | TagOpen | EndTagOpen | RcdataLt | RcdataEndTagOpen | RcdataEndTagName | RawtextLt
    | RawtextEndTagOpen | RawtextEndTagName | ScriptDataLt | ScriptDataEndTagOpen | ScriptDataEndTagName
    | EscapedLt | EscapedEndTagOpen | EscapedEndTagName

  datatype TagState =
    | TagName | BeforeAttrName | AttrName | AfterAttrName | BeforeAttrValue | DoubleQuoted | SingleQuoted
    | Unquoted | AfterQuoted | SelfClosing

  datatype CommentState =
    | BogusComment | MarkupDeclaration | CommentStart | CommentStartDash | Comment | CommentLt
    | CommentLtBang | CommentLtBangDash | CommentLtBangDashDash | CommentEndDash | CommentEnd
    | CommentEndBang

  datatype DoctypeState =
    | Doctype | BeforeDoctypeName | DoctypeName | AfterDoctypeName | AfterPublicKeyword | BeforePublicId
    | PublicDoubleQuoted | PublicSingleQuoted | AfterPublicId | BetweenIds | AfterSystemKeyword
    | BeforeSystemId | SystemDoubleQuoted | SystemSingleQuoted | AfterSystemId | BogusDoctype

  datatype CdataState =
    | CdataSection | CdataBracket | CdataEnd

  datatype RefState =
    | CharRef | NamedCharRef | AmbiguousAmpersand | NumericCharRef | HexStart | DecimalStart | Hex
    | Decimal | NumericEnd

  datatype State =
    | Text(t: TextState)
    | Guess(g: GuessState)     // a tag that may turn out to be text
    | InTag(i: TagState)
    | Com(m: CommentState)
    | Doc(d: DoctypeState)
    | Cdata(a: CdataState)
    | Ref(r: RefState)

  predicate IsContent(s: State)
  {
    s == Text(Data) || s == Text(Rcdata) || s == Text(Rawtext) || s == Text(ScriptData) || s == Text(Plaintext)
  }

  predicate IsAttrValue(s: State)
  {
    s == InTag(DoubleQuoted) || s == InTag(SingleQuoted) || s == InTag(Unquoted)
  }

  // States from which a character reference is entered.
  predicate IsReturn(s: State)
  {
    s == Text(Data) || s == Text(Rcdata) || IsAttrValue(s)
  }

  predicate IsEndTagName(g: GuessState)
  {
    g == RcdataEndTagName || g == RawtextEndTagName || g == ScriptDataEndTagName || g == EscapedEndTagName
  }

  // The lexer may be in the state at the position q of n: a tag is being
  // collected or not, and what may be given back starts at the mark.
  predicate Suits(s: State, returnState: State, q: int, mark: nat, collecting: bool, n: nat)
  {
    && 0 <= q <= n
    && match s
       case Text(_) | Com(_) | Doc(_) => !collecting
       case InTag(_) => collecting
       case Guess(g) => mark < q && collecting == IsEndTagName(g)
       case Cdata(a) => !collecting && (a == CdataBracket ==> mark == q - 1) && (a == CdataEnd ==> mark == q - 2)
       case Ref(r) => collecting == IsAttrValue(returnState) && (r == AmbiguousAmpersand || r == NumericEnd || mark < q)
  }

  // States that assert an empty temporary buffer, and those on the way to them.
  predicate NeedsEmpty(s: State)
  {
    match s
    case Doc(d) =>
      d != DoctypeName && d != PublicDoubleQuoted && d != PublicSingleQuoted
      && d != SystemDoubleQuoted && d != SystemSingleQuoted && d != AfterSystemId && d != BogusDoctype
    case Guess(g) => g == EscapedLt
    case Com(m) => m == MarkupDeclaration
    case _ => false
  }

  // What has been read for good: brackets that may end a CDATA section are given back.
  function Settled(s: State, q: int): (p: int)
  {
    if s == Cdata(CdataBracket) then q - 1 else if s == Cdata(CdataEnd) then q - 2 else q
  }

  // Ends an attribute name; handed on by the attribute name state.
  predicate EndsAttrName(c: int)
  {
    R.IsSpace(c) || c == '/' as int || c == '>' as int || c == R.EOF
  }

  // A state that hands on the character c goes to a state of lower rank.
  function Rank(s: State, c: int): (r: nat)
  {
    match s
    case Text(t) => TextRank(t)
    case Guess(g) => GuessRank(g)
    case InTag(i) => TagRank(i, c)
    case Com(m) => CommentRank(m)
    case Doc(d) => DoctypeRank(d)
    case Cdata(a) => if a == CdataSection then 2 else if a == CdataBracket then 1 else 0
    case Ref(r) => RefRank(r)
  }

  function TextRank(t: TextState): (r: nat)
  {
    if t == EscapedStart || t == EscapedStartDash || t == DoubleEscapedStart || t == DoubleEscapedLt
      || t == DoubleEscapedEnd
    then 1 else 0
  }

  function GuessRank(g: GuessState): (r: nat)
  {
    if g == TagOpen || g == EndTagOpen then 6 else if IsEndTagName(g) then 2 else 3
  }

  function TagRank(i: TagState, c: int): (r: nat)
  {
    match i
    case AfterQuoted | SelfClosing => 4
    case BeforeAttrName => 3
    case AttrName => if EndsAttrName(c) then 2 else 1
    case AfterAttrName => if EndsAttrName(c) || c == '=' as int then 1 else 2
    case BeforeAttrValue => 1
    case _ => 0
  }

  function CommentRank(m: CommentState): (r: nat)
  {
    match m
    case MarkupDeclaration => 5
    case CommentLtBangDash | CommentLtBangDashDash => 3
    case BogusComment | Comment => 1
    case _ => 2
  }

  function DoctypeRank(d: DoctypeState): (r: nat)
  {
    match d
    case Doctype | AfterDoctypeName => 3
    case DoctypeName | PublicDoubleQuoted | PublicSingleQuoted | SystemDoubleQuoted | SystemSingleQuoted
      | BogusDoctype => 1
    case _ => 2
  }

  function RefRank(r: RefState): (n: nat)
  {
    match r
    case CharRef | NumericCharRef => 5
    case NamedCharRef | HexStart | DecimalStart => 4
    case Hex | Decimal => 3
    case NumericEnd => 2
    case AmbiguousAmpersand => 1
  }

  function At(input: seq<int>, q: nat): (c: int)
  {
    if q < |input| then input[q] else R.EOF
  }

  // The lexer has moved from state s at p down to state s' at p'.
  predicate Falls(input: seq<int>, s: State, p: nat, s': State, p': nat)
  {
    || Settled(s', p') > Settled(s, p)
    || (Settled(s', p') == Settled(s, p) && Rank(s', At(input, p')) < Rank(s, At(input, p)))
  }

  // The states of an end tag that may close the text, and the text they return to.
  function EndTagOpenOf(lt: GuessState): (g: GuessState)
  {
    match lt
    case RcdataLt => RcdataEndTagOpen
    case RawtextLt => RawtextEndTagOpen
    case ScriptDataLt => ScriptDataEndTagOpen
    case _ => EscapedEndTagOpen
  }

  function EndTagNameOf(endTagOpen: GuessState): (g: GuessState)
  {
    match endTagOpen
    case RcdataEndTagOpen => RcdataEndTagName
    case RawtextEndTagOpen => RawtextEndTagName
    case ScriptDataEndTagOpen => ScriptDataEndTagName
    case _ => EscapedEndTagName
  }

  function TextOf(g: GuessState): (t: TextState)
  {
    match g
    case RcdataLt | RcdataEndTagOpen | RcdataEndTagName => Rcdata
    case RawtextLt | RawtextEndTagOpen | RawtextEndTagName => Rawtext
    case ScriptDataLt | ScriptDataEndTagOpen | ScriptDataEndTagName => ScriptData
    case _ => Escaped
  }

  // What is left to be read, the rank of the state, whether a second code point of
  // a reference waits, and how many characters behind the mark wait.
  datatype Measure = Measure(left: int, rank: nat, buffered: nat, pending: nat)

  predicate Below(a: Measure, b: Measure)
  {
    || a.left < b.left
    || (a.left == b.left && a.rank < b.rank)
    || (a.left == b.left && a.rank == b.rank && a.buffered < b.buffered)
    || (a.left == b.left && a.rank == b.rank && a.buffered == b.buffered && a.pending < b.pending)
  }

  lemma SettledBounds(s: State, returnState: State, q: int, mark: nat, collecting: bool, n: nat)
    requires Suits(s, returnState, q, mark, collecting, n)
    ensures 0 <= Settled(s, q) <= q <= n
  {
  }

  // The tree builder may change one content state for another.
  lemma ContentSuits(s: State, c: int, returnState: State, q: int, mark: nat, collecting: bool, n: nat)
    requires IsContent(s) && Suits(Text(Data), returnState, q, mark, collecting, n)
    ensures Suits(s, returnState, q, mark, collecting, n) && !NeedsEmpty(s)
    ensures Rank(s, c) == Rank(Text(Data), c) && Settled(s, q) == Settled(Text(Data), q)
  {
  }
}
