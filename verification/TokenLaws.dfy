/** Which token stands where, said character by character: what the lookahead
    reader makes of tags, comments, doctypes and text. */
module TokenLaws {
  import opened LexStates
  import opened Lookahead
  import R = RawText

  const CAPITALS: string := "ABCDEFGHIJKLMNOPQRSTUVWXYZ"
  const LETTERS: string := "abcdefghijklmnopqrstuvwxyz"

  predicate IsLetter(c: int)
  {
    exists i :: 0 <= i < 26 && (c == CAPITALS[i] as int || c == LETTERS[i] as int)
  }

  lemma Alphabet(i: nat)
    requires i < 26
    ensures CAPITALS[i] as int == 65 + i && LETTERS[i] as int == 97 + i
  {
  }

  lemma AllLetters()
    ensures |CAPITALS| == |LETTERS| == 26
    ensures forall i :: 0 <= i < 26 ==> CAPITALS[i] as int == 65 + i && LETTERS[i] as int == 97 + i
  {
    forall i | 0 <= i < 26 ensures CAPITALS[i] as int == 65 + i && LETTERS[i] as int == 97 + i { Alphabet(i); }
  }

  // The small letter of a capital; NUL is replaced.
  ghost function Small(c: int): (r: int)
  {
    if c == 0 then 0xFFFD else if exists i :: 0 <= i < 26 && c == CAPITALS[i] as int then
      var i :| 0 <= i < 26 && c == CAPITALS[i] as int;
      LETTERS[i] as int
    else c
  }

  predicate IsBlank(c: int)
  {
    c == '\t' as int || c == '\n' as int || c == 12 || c == ' ' as int
  }

  lemma LetterIs(c: int)
    ensures R.IsAlpha(c) <==> IsLetter(c)
    ensures NameCode(c) == Small(c) && R.IsSpace(c) == IsBlank(c)
    ensures R.IsDelimiter(c) <==> IsBlank(c) || c == '/' as int || c == '>' as int
  {
    hide CAPITALS, LETTERS;
    AllLetters();
    if 65 <= c <= 90 {
      assert c == CAPITALS[c - 65] as int;
    } else if 97 <= c <= 122 {
      assert c == LETTERS[c - 97] as int;
    }
  }

  ghost function SmallAll(s: seq<int>): (r: seq<int>)
    ensures |r| == |s| && forall i :: 0 <= i < |s| ==> r[i] == Small(s[i])
  {
    seq(|s|, i requires 0 <= i < |s| => Small(s[i]))
  }

  lemma SmallNames(s: seq<int>)
    ensures NameCodes(s) == SmallAll(s)
  {
    forall i | 0 <= i < |s| ensures NameCode(s[i]) == Small(s[i]) {
      LetterIs(s[i]);
    }
  }

  // NUL is replaced in comments.
  function Shown(s: seq<int>): (r: seq<int>)
    ensures |r| == |s| && forall i :: 0 <= i < |s| ==> r[i] == if s[i] == 0 then 0xFFFD else s[i]
  {
    seq(|s|, i requires 0 <= i < |s| => if s[i] == 0 then 0xFFFD else s[i])
  }

  lemma ShownIs(s: seq<int>)
    ensures R.Clean(s) == Shown(s)
  {
  }

  // Any other character is text.
  lemma CharReads(s: seq<int>, foreign: bool, k: nat)
    requires k < |s| && s[k] != '<' as int && s[k] != '&' as int
    ensures Read(s, foreign, k) == Reads(Char(s[k]), k + 1)
  {
  }

  // A less-than sign that opens nothing is text, too.
  lemma LtReads(s: seq<int>, foreign: bool, k: nat)
    requires Stands(s, k, '<')
    requires k + 1 < |s| ==>
               !IsLetter(s[k + 1]) && s[k + 1] != '/' as int && s[k + 1] != '!' as int && s[k + 1] != '?' as int
    ensures Read(s, foreign, k) == Reads(Char('<' as int), k + 1)
  {
    if k + 1 < |s| { LetterIs(s[k + 1]); }
  }

  // The name of a tag from n to e: it begins with a letter and goes on to a
  // blank, a slash or a greater-than sign.
  ghost predicate NameAt(s: seq<int>, n: nat, e: nat)
  {
    && n < e < |s| && IsLetter(s[n])
    && (forall i :: n <= i < e ==> !IsBlank(s[i]) && s[i] != '/' as int && s[i] != '>' as int && s[i] >= 0)
    && (IsBlank(s[e]) || s[e] == '/' as int || s[e] == '>' as int)
  }

  // "<" and a letter begin a start tag, "</" and a letter an end tag.
  ghost predicate TagAt(s: seq<int>, k: nat, start: bool, n: nat, e: nat)
  {
    Stands(s, k, '<') && (if start then n == k + 1 else Stands(s, k + 1, '/') && n == k + 2) && NameAt(s, n, e)
  }

  lemma TagOpens(s: seq<int>, foreign: bool, k: nat, start: bool, n: nat, e: nat)
    requires TagAt(s, k, start, n, e)
    ensures Read(s, foreign, k) == TagReading(s, start, SmallAll(s[n..e]), Attributes(s, e))
  {
    hide Attributes, SmallAll, Small, NameAt, TagFrom, Declaration, Bogus, IsLetter, NameCodes, NameCode;
    NameFirst(s, n, e);
    TagFromName(s, start, n, e);
  }

  lemma NameFirst(s: seq<int>, n: nat, e: nat)
    requires NameAt(s, n, e)
    ensures n < |s| && R.IsAlpha(s[n]) && !R.IsAlpha('/' as int)
  {
    LetterIs(s[n]);
  }

  lemma TagFromName(s: seq<int>, start: bool, n: nat, e: nat)
    requires NameAt(s, n, e)
    ensures TagFrom(s, start, [], n) == TagReading(s, start, SmallAll(s[n..e]), Attributes(s, e))
  {
    hide Attributes, SmallAll, Small, NameCodes, NameCode, IsLetter;
    forall i | n <= i <= e ensures R.IsSpace(s[i]) == IsBlank(s[i]) { LetterIs(s[i]); }
    StopIs(s, n, e);
    SmallNames(s[n..e]);
    assert [] + NameCodes(s[n..e]) == SmallAll(s[n..e]);
  }

  lemma {:induction false} StopIs(s: seq<int>, n: nat, e: nat)
    requires n <= e < |s| && EndsAttrName(s[e]) && forall i :: n <= i < e ==> !EndsAttrName(s[i])
    ensures NameStop(s, n) == e
    decreases e - n
  {
    if n < e {
      StopIs(s, n + 1, e);
    }
  }

  // A tag whose name is followed by ">".
  lemma TagReads(s: seq<int>, foreign: bool, k: nat, start: bool, n: nat, e: nat)
    requires TagAt(s, k, start, n, e) && s[e] == '>' as int
    ensures Read(s, foreign, k) == Reads(Tag(start, SmallAll(s[n..e])), e + 1)
  {
    hide Read;
    TagOpens(s, foreign, k, start, n, e);
  }

  // Without quotes and ampersands the first ">" closes the tag, whatever
  // attributes it has; without any the tag is dropped at the end of the input.
  lemma TagCloses(s: seq<int>, foreign: bool, k: nat, start: bool, n: nat, e: nat, z: nat)
    requires TagAt(s, k, start, n, e) && e <= z <= |s| && (z < |s| ==> s[z] == '>' as int)
    requires forall i :: e <= i < z ==>
               s[i] != '>' as int && s[i] != '"' as int && s[i] != '\'' as int && s[i] != '&' as int && s[i] >= 0
    ensures Read(s, foreign, k) == if z < |s| then Reads(Tag(start, SmallAll(s[n..e])), z + 1) else Reads(Eof, |s|)
  {
    hide Read, Attributes;
    TagOpens(s, foreign, k, start, n, e);
    Unquoted(s, e, z);
  }

  ghost predicate Ends(s: seq<int>, z: nat, r: Close)
  {
    r == if z < |s| then Closed(z + 1) else Broken
  }

  lemma {:induction false} Unquoted(s: seq<int>, k: nat, z: nat)
    requires k <= z <= |s| && (z < |s| ==> s[z] == '>' as int)
    requires forall i :: k <= i < z ==>
               s[i] != '>' as int && s[i] != '"' as int && s[i] != '\'' as int && s[i] != '&' as int && s[i] >= 0
    ensures Ends(s, z, Attributes(s, k)) && Ends(s, z, AttrNameRest(s, k)) && Ends(s, z, AfterName(s, k))
    ensures Ends(s, z, ValueAt(s, k)) && Ends(s, z, UnquotedRest(s, k))
    decreases z - k
  {
    if k < z {
      Unquoted(s, k + 1, z);
      assert Ends(s, z, Attributes(s, k));
      assert Ends(s, z, AfterName(s, k));
      assert Ends(s, z, UnquotedRest(s, k));
    } else if z < |s| {
      assert !R.IsSpace(s[z]) && EndsAttrName(s[z]);
      assert Attributes(s, k) == Closed(z + 1) == AfterName(s, k);
    }
  }

  // In a quoted value ">" is like any other character: behind the quote at v the
  // next same quote ends the value.
  lemma {:induction false} QuotedReads(s: seq<int>, v: nat, q: nat, quote: int)
    requires v <= q < |s| && s[q] == quote && quote != '&' as int
    requires forall i :: v <= i < q ==> s[i] != quote && s[i] != '&' as int
    ensures QuotedRest(s, v, quote) == Attributes(s, q + 1)
    decreases q - v
  {
    if v < q {
      QuotedReads(s, v + 1, q, quote);
    }
  }

  // A comment goes from "<!--" to the first "-->", or "--!>", that comes after it.
  lemma CommentReads(s: seq<int>, foreign: bool, k: nat, e: nat)
    requires Stands(s, k, '<') && Stands(s, k + 1, '!') && Stands(s, k + 2, '-') && Stands(s, k + 3, '-')
    requires k + 4 <= e && (Arrow(s, e) || BangArrow(s, e))
    requires forall i :: k + 4 <= i < e ==> !Arrow(s, i) && !BangArrow(s, i)
    requires !Stands(s, k + 4, '>') && !(Stands(s, k + 4, '-') && Stands(s, k + 5, '>'))
    ensures Read(s, foreign, k) == Reads(CommentToken(Shown(s[k + 4..e])), if Arrow(s, e) then e + 3 else e + 4)
  {
    hide CommentFrom, Shown;
    LetterIs('!' as int);
    CommentTo(s, k + 4, e);
    assert [] + Shown(s[k + 4..e]) == Shown(s[k + 4..e]);
  }

  lemma {:induction false} CommentTo(s: seq<int>, j: nat, e: nat)
    requires j <= e && (Arrow(s, e) || BangArrow(s, e)) && forall i :: j <= i < e ==> !Arrow(s, i) && !BangArrow(s, i)
    ensures CommentFrom(s, j) == Piece(Shown(s[j..e]), if Arrow(s, e) then e + 3 else e + 4)
    decreases e - j
  {
    hide Shown;
    if j < e {
      CommentTo(s, j + 1, e);
      assert |s[j..]| > 3;
      ShownMore(s, j, e);
    } else {
      ShownNone(s, e);
    }
  }

  lemma ShownMore(s: seq<int>, j: nat, e: nat)
    requires j < e <= |s|
    ensures Shown(s[j..e]) == R.Clean([s[j]]) + Shown(s[j + 1..e])
  {
    ShownIs([s[j]]);
    assert s[j..e] == [s[j]] + s[j + 1..e];
    assert Shown(s[j..e]) == Shown([s[j]]) + Shown(s[j + 1..e]);
  }

  lemma ShownNone(s: seq<int>, e: nat)
    requires e <= |s|
    ensures Shown(s[e..e]) == []
  {
  }

  // "<!-->" and "<!--->" are empty comments.
  lemma EmptyComments(s: seq<int>, foreign: bool, k: nat)
    requires Stands(s, k, '<') && Stands(s, k + 1, '!') && Stands(s, k + 2, '-') && Stands(s, k + 3, '-')
    ensures Stands(s, k + 4, '>') ==> Read(s, foreign, k) == Reads(CommentToken([]), k + 5)
    ensures Stands(s, k + 4, '-') && Stands(s, k + 5, '>') ==> Read(s, foreign, k) == Reads(CommentToken([]), k + 6)
  {
    LetterIs('!' as int);
  }

  // A comment that is never closed goes on to the end of the input, up to m, but
  // for "-", "--" or "--!" at the very end.
  lemma OpenComment(s: seq<int>, foreign: bool, k: nat, m: nat)
    requires Stands(s, k, '<') && Stands(s, k + 1, '!') && Stands(s, k + 2, '-') && Stands(s, k + 3, '-')
    requires k + 4 <= m <= |s| && (m == |s| || Started(s[m..])) && forall i :: k + 4 <= i < m ==> !Started(s[i..])
    requires forall i :: k + 4 <= i ==> !Arrow(s, i) && !BangArrow(s, i)
    requires !Stands(s, k + 4, '>') && !(Stands(s, k + 4, '-') && Stands(s, k + 5, '>'))
    ensures Read(s, foreign, k) == Reads(CommentToken(Shown(s[k + 4..m])), |s|)
  {
    hide CommentFrom, Shown;
    LetterIs('!' as int);
    CommentOn(s, k + 4, m);
    assert [] + Shown(s[k + 4..m]) == Shown(s[k + 4..m]);
  }

  lemma {:induction false} CommentOn(s: seq<int>, j: nat, m: nat)
    requires j <= m <= |s| && (m == |s| || Started(s[m..])) && forall i :: j <= i < m ==> !Started(s[i..])
    requires forall i :: j <= i ==> !Arrow(s, i) && !BangArrow(s, i)
    ensures CommentFrom(s, j) == Piece(Shown(s[j..m]), |s|)
    decreases m - j
  {
    hide Shown, Started;
    if j < m {
      CommentOn(s, j + 1, m);
      ShownMore(s, j, m);
    } else {
      ShownNone(s, m);
    }
  }

  const WORD: string := "doctype"

  // "<!doctype" in any case begins a doctype, which the first ">" ends, in
  // quotes or not, or the end of the input.
  lemma DoctypeReads(s: seq<int>, foreign: bool, k: nat, e: nat)
    requires Stands(s, k, '<') && Stands(s, k + 1, '!') && k + 9 <= e <= |s|
    requires forall i :: 0 <= i < 7 ==> Small(s[k + 2 + i]) == WORD[i] as int
    requires (e < |s| ==> s[e] == '>' as int) && forall i :: k + 9 <= i < e ==> s[i] != '>' as int
    ensures Read(s, foreign, k) == Reads(DoctypeToken, if e < |s| then e + 1 else e)
  {
    hide Bogus, CommentOpen, Closer, WordAt, DOCTYPE, Small, WORD, Stands;
    BangIsNoLetter(s, k);
    IsDoctypeWord(s, k + 2);
    CloserFrom(s, k + 9, e);
    CloserHere(s, e);
    ReadsDeclaration(s, foreign, k);
  }

  lemma BangIsNoLetter(s: seq<int>, k: nat)
    ensures Stands(s, k, '!') ==> !R.IsAlpha(s[k])
  {
  }

  lemma ReadsDeclaration(s: seq<int>, foreign: bool, k: nat)
    requires Stands(s, k, '<') && Stands(s, k + 1, '!')
    ensures Read(s, foreign, k) == Declaration(s, foreign, k + 2)
  {
    hide Declaration;
    BangIsNoLetter(s, k + 1);
  }

  lemma IsDoctypeWord(s: seq<int>, k: nat)
    requires k + 7 <= |s| && forall i :: 0 <= i < 7 ==> Small(s[k + i]) == WORD[i] as int
    ensures R.LowerAll(WordAt(s, k, 7)) == DOCTYPE && !Stands(s, k, '-')
  {
    hide Small;
    var w := WordAt(s, k, 7);
    assert R.LowerAll(w) == DOCTYPE by {
      forall i | 0 <= i < 7 ensures R.LowerAll(w)[i] == DOCTYPE[i] {
        LetterIs(w[i]);
        assert w[i] == s[k + i] && WORD[i] as int == DOCTYPE[i] > 0;
        ZeroIsShown();
      }
    }
    LetterIs('-' as int);
    assert Small(s[k + 0]) == WORD[0] as int;
  }

  lemma ZeroIsShown()
    ensures Small(0) == 0xFFFD
  {
  }

  lemma CloserHere(s: seq<int>, e: nat)
    requires e <= |s| && (e < |s| ==> s[e] == '>' as int)
    ensures Closer(s, e) == e
  {
  }

  // "<?", and "</" before what is no letter, begin a comment up to the first ">".
  lemma BogusReads(s: seq<int>, foreign: bool, k: nat, e: nat)
    requires Stands(s, k, '<') && k + 1 < |s|
    requires s[k + 1] == '?' as int
             || (s[k + 1] == '/' as int && k + 2 < |s| && !IsLetter(s[k + 2]) && s[k + 2] != '>' as int)
    requires var from := if s[k + 1] == '?' as int then k + 1 else k + 2;
             from <= e <= |s| && (e < |s| ==> s[e] == '>' as int) && forall i :: from <= i < e ==> s[i] != '>' as int
    ensures var from := if s[k + 1] == '?' as int then k + 1 else k + 2;
            Read(s, foreign, k) == Reads(CommentToken(Shown(s[from..e])), if e < |s| then e + 1 else e)
  {
    var from := if s[k + 1] == '?' as int then k + 1 else k + 2;
    LetterIs(s[k + 1]);
    if k + 2 < |s| { LetterIs(s[k + 2]); }
    CloserFrom(s, from, e);
    CloserHere(s, e);
    assert [] + R.Clean(s[from..e]) == Shown(s[from..e]);
  }

  // "</>" is passed over.
  lemma EmptyEndTag(s: seq<int>, foreign: bool, k: nat)
    requires Stands(s, k, '<') && Stands(s, k + 1, '/') && Stands(s, k + 2, '>')
    ensures Read(s, foreign, k) == Read(s, foreign, k + 3)
  {
    LetterIs('/' as int);
    LetterIs('>' as int);
  }
}
