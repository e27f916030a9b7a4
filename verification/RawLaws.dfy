/** Where raw text ends, said by positions: the end tag that closes it, and how
    comment-like script data hides end tags (gumbo-parser/src/tokenizer.c). */
module RawLaws {
  import opened RawText

  // RAWTEXT, and script data without "<!--", end at the first appropriate end
  // tag, and at the end of the input when there is none.
  lemma {:induction false} EndsAt(s: seq<int>, tagOf: seq<int> -> int, last: int, k: nat, e: nat, mode: Mode)
    requires k <= e <= |s| && (mode == Raw || (mode == Script && forall i :: k <= i < e ==> !CommentAt(s, i)))
    requires e < |s| ==> AppropriateAt(s, tagOf, last, e)
    requires forall i :: k <= i < e ==> !AppropriateAt(s, tagOf, last, i)
    ensures TextEnd(s, tagOf, last, k, mode) == e
    decreases e - k
  {
    hide NameEnd, AppropriateAt, CommentAt;
    if k < e {
      EndsAt(s, tagOf, last, k + 1, e, mode);
    }
  }

  // PLAINTEXT has no end but that of the input.
  lemma {:induction false} PlainNeverEnds(s: seq<int>, tagOf: seq<int> -> int, last: int, k: nat)
    requires k <= |s|
    ensures TextEnd(s, tagOf, last, k, Never) == |s|
    decreases |s| - k
  {
    if k < |s| {
      PlainNeverEnds(s, tagOf, last, k + 1);
    }
  }

  // What closes RAWTEXT, letter by letter: "</", the name of the element in any
  // case, and a blank, a slash or a greater-than sign.
  lemma ClosingTag(s: seq<int>, tagOf: seq<int> -> int, last: int, q: nat, e: nat)
    requires q + 2 < e < |s| && s[q] == '<' as int && s[q + 1] == '/' as int
    requires forall i :: q + 2 <= i < e ==> 'a' as int <= s[i] <= 'z' as int || 'A' as int <= s[i] <= 'Z' as int
    requires s[e] == 9 || s[e] == 10 || s[e] == 12 || s[e] == ' ' as int || s[e] == '/' as int || s[e] == '>' as int
    ensures AppropriateAt(s, tagOf, last, q) <==> last != NO_TAG && tagOf(LowerAll(s[q + 2..e])) == last
  {
    NameEndIs(s, q + 2, e);
  }

  // The word "script" behind "<" in comment-like script data hides the end tags
  // that follow. Any other word changes nothing.
  lemma ScriptWord(s: seq<int>, tagOf: seq<int> -> int, last: int, k: nat, e: nat, d: nat)
    requires k + 1 < e < |s| && s[k] == '<' as int
    requires forall i :: k + 1 <= i < e ==> 'a' as int <= s[i] <= 'z' as int || 'A' as int <= s[i] <= 'Z' as int
    requires s[e] == 9 || s[e] == 10 || s[e] == 12 || s[e] == ' ' as int || s[e] == '/' as int || s[e] == '>' as int
    ensures TextEnd(s, tagOf, last, k, Esc(d)) ==
            TextEnd(s, tagOf, last, e + 1, if Spells(s[k + 1..e], "script", "SCRIPT") then Dbl(0) else Esc(0))
  {
    hide TextEnd;
    NameEndIs(s, k + 1, e);
    SpellsScript(s[k + 1..e]);
    WordOpens(s, tagOf, last, k, d);
    WordGoes(s, tagOf, last, k + 1, e, Dbl(0), Esc(0));
  }

  // While they are hidden, an end tag is passed over with its delimiter; that of
  // script, and no other, shows the end tags that follow.
  lemma HiddenEndTag(s: seq<int>, tagOf: seq<int> -> int, last: int, k: nat, e: nat, d: nat)
    requires k + 2 < e < |s| && s[k] == '<' as int && s[k + 1] == '/' as int
    requires forall i :: k + 2 <= i < e ==> 'a' as int <= s[i] <= 'z' as int || 'A' as int <= s[i] <= 'Z' as int
    requires s[e] == 9 || s[e] == 10 || s[e] == 12 || s[e] == ' ' as int || s[e] == '/' as int || s[e] == '>' as int
    ensures TextEnd(s, tagOf, last, k, Dbl(d)) ==
            TextEnd(s, tagOf, last, e + 1, if Spells(s[k + 2..e], "script", "SCRIPT") then Esc(0) else Dbl(0))
  {
    hide TextEnd;
    NameEndIs(s, k + 2, e);
    SpellsScript(s[k + 2..e]);
    EndTagHidden(s, tagOf, last, k, d);
    WordGoes(s, tagOf, last, k + 2, e, Esc(0), Dbl(0));
  }

  lemma EndTagHidden(s: seq<int>, tagOf: seq<int> -> int, last: int, k: nat, d: nat)
    requires k + 2 < |s| && s[k] == '<' as int && s[k + 1] == '/' as int
    ensures TextEnd(s, tagOf, last, k, Dbl(d)) == AfterWord(s, tagOf, last, k + 2, Esc(0), Dbl(0))
  {
    hide NameEnd, AfterWord, AppropriateAt;
  }

  // A word in either case of letters.
  predicate Spells(w: seq<int>, lower: string, upper: string)
    requires |lower| == |upper|
  {
    |w| == |lower| && forall i :: 0 <= i < |w| ==> w[i] == lower[i] as int || w[i] == upper[i] as int
  }

  lemma SpellsScript(w: seq<int>)
    ensures LowerAll(w) == SCRIPT <==> Spells(w, "script", "SCRIPT")
  {
    assert forall i :: 0 <= i < 6 ==> "script"[i] as int == SCRIPT[i] && "SCRIPT"[i] as int == SCRIPT[i] - 32;
    if Spells(w, "script", "SCRIPT") {
      forall i | 0 <= i < 6 ensures LowerAll(w)[i] == SCRIPT[i] {}
      assert LowerAll(w) == SCRIPT;
    }
    if LowerAll(w) == SCRIPT {
      assert |w| == 6;
      forall i | 0 <= i < 6 ensures w[i] == "script"[i] as int || w[i] == "SCRIPT"[i] as int {
        assert LowerCode(w[i]) == LowerAll(w)[i] == SCRIPT[i];
      }
    }
  }

  lemma WordOpens(s: seq<int>, tagOf: seq<int> -> int, last: int, k: nat, d: nat)
    requires k + 1 < |s| && s[k] == '<' as int && IsAlpha(s[k + 1])
    ensures TextEnd(s, tagOf, last, k, Esc(d)) == AfterWord(s, tagOf, last, k + 1, Dbl(0), Esc(0))
  {
    hide NameEnd, AfterWord;
    assert !AppropriateAt(s, tagOf, last, k);
  }

  lemma WordGoes(s: seq<int>, tagOf: seq<int> -> int, last: int, k: nat, e: nat, changed: Mode, same: Mode)
    requires 0 < k < e < |s| && NameEnd(s, k) == e && IsDelimiter(s[e])
    ensures AfterWord(s, tagOf, last, k, changed, same) ==
            TextEnd(s, tagOf, last, e + 1, if LowerAll(s[k..e]) == SCRIPT then changed else same)
  {
    hide TextEnd, NameEnd;
  }
}
