/** Character references one by one: numbers printed in either base and read
    again, and names with the exception for attribute values
    (gumbo-parser/src/tokenizer.c, from the character reference state on). */
module References {
  import opened CharRefs

  const LOWER_DIGITS: string := "0123456789abcdef"
  const UPPER_DIGITS: string := "0123456789ABCDEF"

  function Base(hex: bool): (b: nat)
  {
    if hex then 16 else 10
  }

  function Digit(v: nat, upper: bool): (c: int)
    requires v < 16
  {
    (if upper then UPPER_DIGITS[v] else LOWER_DIGITS[v]) as int
  }

  // The digits of n. Which letters are capitals is left to the writer, who may
  // decide it anew for every digit.
  function Printed(n: nat, hex: bool, upper: nat -> bool): (digits: seq<int>)
  {
    var d := [Digit(n % Base(hex), upper(n))];
    if n < Base(hex) then d else Printed(n / Base(hex), hex, upper) + d
  }

  function Zeros(k: nat): (digits: seq<int>)
    ensures |digits| == k && forall i :: 0 <= i < k ==> digits[i] == '0' as int
  {
    seq(k, i => '0' as int)
  }

  // The digits are those of the table, and each has the value of its place there.
  lemma DigitIs(v: nat, upper: bool, hex: bool)
    requires v < Base(hex)
    ensures var c := Digit(v, upper); IsBaseDigit(c, hex) && DigitValue(c) == v
  {
  }

  lemma DigitsOnly(c: int, hex: bool)
    ensures IsBaseDigit(c, hex) <==> exists v, upper :: 0 <= v < Base(hex) && c == Digit(v, upper)
  {
    if IsBaseDigit(c, hex) {
      var v := DigitValue(c);
      assert c == Digit(v, IsUpperHex(c));
    }
    if v, upper :| 0 <= v < Base(hex) && c == Digit(v, upper) {
      DigitIs(v, upper, hex);
    }
  }

  // Printing and reading: every number, in both bases, in any case of letters.
  lemma {:induction false} PrintedReads(n: nat, hex: bool, upper: nat -> bool)
    ensures var digits := Printed(n, hex, upper);
            digits != [] && (forall i :: 0 <= i < |digits| ==> IsBaseDigit(digits[i], hex)) && Value(digits, hex) == n
    decreases n
  {
    hide DigitValue, Digit, Value, IsBaseDigit, Base;
    Parts(n, hex);
    var c := Digit(n % Base(hex), upper(n));
    DigitIs(n % Base(hex), upper(n), hex);
    if n < Base(hex) {
      OneMoreDigit([], c, hex);
      NoDigits(hex);
      assert [] + [c] == [c];
    } else {
      PrintedReads(n / Base(hex), hex, upper);
      OneMoreDigit(Printed(n / Base(hex), hex, upper), c, hex);
    }
  }

  lemma Parts(n: nat, hex: bool)
    ensures n % Base(hex) < Base(hex) <= 16
    ensures n / Base(hex) * Base(hex) + n % Base(hex) == n
    ensures n >= Base(hex) ==> 0 < n / Base(hex) < n
    ensures n < Base(hex) ==> n % Base(hex) == n
  {
    if hex {
      assert Base(hex) == 16;
    } else {
      assert Base(hex) == 10;
    }
  }

  lemma NoDigits(hex: bool)
    ensures Value([], hex) == 0
  {
  }

  lemma OneMoreDigit(front: seq<int>, c: int, hex: bool)
    requires (forall i :: 0 <= i < |front| ==> IsBaseDigit(front[i], hex)) && IsBaseDigit(c, hex)
    ensures forall i :: 0 <= i < |front + [c]| ==> IsBaseDigit((front + [c])[i], hex)
    ensures Value(front + [c], hex) == Value(front, hex) * Base(hex) + DigitValue(c)
  {
    hide DigitValue;
    assert (front + [c])[..|front|] == front;
  }

  // Leading zeros do not count.
  lemma {:induction false} ZerosFirst(k: nat, digits: seq<int>, hex: bool)
    requires forall i :: 0 <= i < |digits| ==> IsBaseDigit(digits[i], hex)
    ensures forall i :: 0 <= i < k + |digits| ==> IsBaseDigit((Zeros(k) + digits)[i], hex)
    ensures Value(Zeros(k) + digits, hex) == Value(digits, hex)
    decreases k + |digits|
  {
    hide DigitValue;
    if digits != [] {
      var n := |digits| - 1;
      ZerosFirst(k, digits[..n], hex);
      assert (Zeros(k) + digits)[..k + n] == Zeros(k) + digits[..n];
    } else if k > 0 {
      ZerosFirst(k - 1, [], hex);
      assert Zeros(k) + [] == Zeros(k) && (Zeros(k - 1) + []) == Zeros(k - 1);
      assert Zeros(k)[..k - 1] == Zeros(k - 1);
      ZeroIsNothing();
    }
  }

  lemma ZeroIsNothing()
    ensures DigitValue('0' as int) == 0
  {
  }

  // What replaces the C1 controls from 0x80 to 0x9F; 0 where nothing does.
  function C1(): (codes: seq<int>)
    ensures |codes| == 32
  {
    [0x20AC, 0, 0x201A, 0x0192, 0x201E, 0x2026, 0x2020, 0x2021, 0x02C6, 0x2030, 0x0160, 0x2039, 0x0152, 0, 0x017D, 0,
     0, 0x2018, 0x2019, 0x201C, 0x201D, 0x2022, 0x2013, 0x2014, 0x02DC, 0x2122, 0x0161, 0x203A, 0x0153, 0, 0x017E,
     0x0178]
  }

  // The character that a number names.
  function Character(n: nat): (c: int)
  {
    if !IsScalar(n) || n == 0 then REPLACEMENT
    else if 0x80 <= n < 0xA0 && C1()[n - 0x80] != 0 then C1()[n - 0x80]
    else n
  }

  lemma NamesCharacter(n: nat)
    ensures Final(Capped(n)) == Character(n)
  {
    hide FromWindows1252;
    if 0x80 <= n < 0xA0 {
      hide Character, Final;
      Replaced(n);
      InC1(n, FromWindows1252(n));
    } else {
      NotReplaced(n);
    }
  }

  lemma InC1(n: nat, c: int)
    requires 0x80 <= n < 0xA0 && (C1()[n - 0x80] != 0 ==> FromWindows1252(n) == C1()[n - 0x80])
    requires C1()[n - 0x80] == 0 ==> FromWindows1252(n) == n
    ensures Final(Capped(n)) == Character(n)
  {
    hide FromWindows1252, C1;
  }

  lemma Replaced(n: nat)
    requires 0x80 <= n < 0xA0
    ensures FromWindows1252(n) == if C1()[n - 0x80] == 0 then n else C1()[n - 0x80]
  {
    if n < 0x88 {
    } else if n < 0x90 {
    } else if n < 0x98 {
    } else {
    }
  }

  lemma NotReplaced(n: nat)
    requires !(0x80 <= n < 0xA0)
    ensures FromWindows1252(n) == n
  {
  }

  // The written form of a reference.
  function Written(n: nat, zeros: nat, hex: bool, capital: bool, upper: nat -> bool): (r: seq<int>)
  {
    (if !hex then ['&' as int, '#' as int]
     else ['&' as int, '#' as int, (if capital then 'X' else 'x') as int])
    + Zeros(zeros) + Printed(n, hex, upper)
  }

  // Wherever it stands, whatever follows its semicolon, a reference written for
  // a number decodes to the character that the number names. So it does without
  // a semicolon unless a digit follows.
  lemma ReferenceReads(s: seq<int>, named: seq<int> -> Match, p: Place, k: nat,
      n: nat, zeros: nat, hex: bool, capital: bool, upper: nat -> bool)
    requires IsMatcher(s, named)
    requires var w := Written(n, zeros, hex, capital, upper);
             var e := k + |w|;
             e <= |s| && s[k..e] == w && (e < |s| ==> !IsBaseDigit(s[e], hex))
    ensures var e := k + |Written(n, zeros, hex, capital, upper)|;
            var next := if e < |s| && s[e] == ';' as int then e + 1 else e;
            Decode(s, named, p, k) == Cons([Character(n)], Decode(s, named, p, next))
  {
    hide Digit, DigitValue, Printed, Final, Character, FromWindows1252, Value, Decode, DecodeRef, IsMatcher, Zeros;
    var digits := Zeros(zeros) + Printed(n, hex, upper);
    var e := k + |Written(n, zeros, hex, capital, upper)|;
    PrintedReads(n, hex, upper);
    ZerosFirst(zeros, Printed(n, hex, upper), hex);
    assert digits != [];
    Standing(s, k, hex, if capital then 'X' else 'x', digits, e);
    DigitsEndIs(s, e - |digits|, e, hex);
    NamesCharacter(n);
    Unfolded(s, named, p, k, hex, e - |digits|, e);
  }

  // What stands where a reference has been written.
  lemma Standing(s: seq<int>, k: nat, hex: bool, x: char, digits: seq<int>, e: nat)
    requires digits != [] && forall i :: 0 <= i < |digits| ==> IsBaseDigit(digits[i], hex)
    requires var w := (if hex then ['&' as int, '#' as int, x as int] else ['&' as int, '#' as int]) + digits;
             e == k + |w| <= |s| && s[k..e] == w
    ensures s[k] == '&' as int && s[k + 1] == '#' as int
    ensures s[e - |digits|..e] == digits && forall i :: e - |digits| <= i < e ==> IsBaseDigit(s[i], hex)
    ensures if hex then s[k + 2] == x as int else s[k + 2] != 'x' as int && s[k + 2] != 'X' as int
  {
    assert s[k] == s[k..e][0] && s[k + 1] == s[k..e][1] && s[k + 2] == s[k..e][2];
    var from := e - |digits|;
    assert s[from..e] == s[k..e][from - k..];
    forall i | from <= i < e ensures IsBaseDigit(s[i], hex) {
      assert s[i] == digits[i - from];
    }
  }

  lemma Unfolded(s: seq<int>, named: seq<int> -> Match, p: Place, k: nat, hex: bool, from: nat, e: nat)
    requires IsMatcher(s, named) && k + 2 <= from < e <= |s| && DigitsEnd(s, from, hex) == e
    requires s[k] == '&' as int && s[k + 1] == '#' as int
    requires if hex then from == k + 3 && (s[k + 2] == 'x' as int || s[k + 2] == 'X' as int)
             else from == k + 2 && s[k + 2] != 'x' as int && s[k + 2] != 'X' as int
    ensures var next := if e < |s| && s[e] == ';' as int then e + 1 else e;
            Decode(s, named, p, k) == Cons([Final(Capped(Value(s[from..e], hex)))], Decode(s, named, p, next))
  {
    hide Value, Final, DigitsEnd;
  }

  // A name that the matcher knows, in text: its characters, whatever follows.
  lemma NameReads(s: seq<int>, named: seq<int> -> Match, p: Place, k: nat)
    requires IsMatcher(s, named) && k + 1 < |s| && s[k] == '&' as int && IsAlnum(s[k + 1])
    requires p == InData || p == InRcdata
    ensures var m := named(s[k + 1..]);
            m.size > 0 ==>
              Decode(s, named, p, k) ==
              Cons(if m.second == NO_CHAR then [m.first] else [m.first, m.second], Decode(s, named, p, k + 1 + m.size))
  {
  }

  // In a quoted value the same, unless the name has no semicolon and an equals
  // sign, a letter or a digit follows: then it stays as it is written.
  lemma NameInValue(s: seq<int>, named: seq<int> -> Match, p: Place, k: nat)
    requires IsMatcher(s, named) && k + 1 < |s| && s[k] == '&' as int && IsAlnum(s[k + 1])
    requires p == InDoubleQuoted || p == InSingleQuoted
    ensures var m := named(s[k + 1..]);
            var e := k + 1 + m.size;
            m.size > 0 ==>
              var bare := s[e - 1] != ';' as int
                          && e < |s| && (s[e] == '=' as int || '0' as int <= s[e] <= '9' as int
                                         || 'A' as int <= s[e] <= 'Z' as int || 'a' as int <= s[e] <= 'z' as int);
              Decode(s, named, p, k) ==
              Cons(if bare then s[k..e] else if m.second == NO_CHAR then [m.first] else [m.first, m.second],
                Decode(s, named, p, e))
  {
  }

  // An ampersand that begins no reference is text.
  lemma AmpersandReads(s: seq<int>, named: seq<int> -> Match, p: Place, k: nat)
    requires IsMatcher(s, named) && k < |s| && s[k] == '&' as int
    requires k + 1 < |s| ==>
               if IsAlnum(s[k + 1]) then named(s[k + 1..]).size == 0 else s[k + 1] != '#' as int
    ensures Decode(s, named, p, k) == Cons(['&' as int], Decode(s, named, p, k + 1))
  {
  }

  // Other characters stand for themselves, up to the less-than sign in text and
  // to the same quote in a value; NUL is replaced everywhere but in the data state.
  lemma PlainReads(s: seq<int>, named: seq<int> -> Match, p: Place, k: nat)
    requires IsMatcher(s, named) && k < |s| && s[k] != '&' as int
    ensures var stops := match p
                         case InData | InRcdata => s[k] == '<' as int
                         case InDoubleQuoted => s[k] == '"' as int
                         case InSingleQuoted => s[k] == '\'' as int;
            Decode(s, named, p, k) ==
            if stops then Decoded([], k)
            else Cons([if s[k] == 0 && p != InData then 0xFFFD else s[k]], Decode(s, named, p, k + 1))
  {
  }
}
