/**
 * The parts of Python's `str` semantics the bot relies on, written out per
 * character: `str.isspace` (used by `split()` and `strip()`), the `\w` class
 * of the `re` module, and `str.upper`.
 */
module UnicodeText {

  /** Python's `str.isspace()`: the separators of `split()` and `strip()`. */
  predicate IsSpace(c: char) {
    || ('\t' <= c <= '\r')
    || ('\U{1C}' <= c <= '\U{1F}')
    || c == ' '
    || c == '\U{85}'
    || c == '\U{A0}'
    || c == '\U{1680}'
    || ('\U{2000}' <= c <= '\U{200A}')
    || c == '\U{2028}'
    || c == '\U{2029}'
    || c == '\U{202F}'
    || c == '\U{205F}'
    || c == '\U{3000}'
  }

  /**
   * The `\w` class of Python's `re` on `str` patterns (letters, digits,
   * numerals and `_`), restricted to ASCII, Latin-1, Latin Extended-A and
   * the Cyrillic block.
   */
  predicate IsWordChar(c: char) {
    || c == '_'
    || ('0' <= c <= '9')
    || ('A' <= c <= 'Z')
    || ('a' <= c <= 'z')
    || c == '\U{AA}' || c == '\U{B2}' || c == '\U{B3}' || c == '\U{B5}'
    || c == '\U{B9}' || c == '\U{BA}'
    || ('\U{BC}' <= c <= '\U{BE}')
    || ('\U{C0}' <= c <= '\U{D6}')
    || ('\U{D8}' <= c <= '\U{F6}')
    || ('\U{F8}' <= c <= '\U{17F}')
    || ('\U{400}' <= c <= '\U{481}')
    || ('\U{48A}' <= c <= '\U{4FF}')
  }

  /** Lower-case letters of Latin Extended-A and Cyrillic whose capital is the preceding code point. */
  predicate IsOddLower(c: char) {
    var n := c as int;
    && n % 2 == 1
    && (|| ('\U{100}' <= c <= '\U{12F}')
        || ('\U{132}' <= c <= '\U{137}')
        || ('\U{14A}' <= c <= '\U{177}')
        || ('\U{460}' <= c <= '\U{481}')
        || ('\U{48A}' <= c <= '\U{4BF}')
        || ('\U{4D0}' <= c <= '\U{4FF}'))
  }

  predicate IsEvenLower(c: char) {
    var n := c as int;
    && n % 2 == 0
    && (|| ('\U{139}' <= c <= '\U{148}')
        || ('\U{179}' <= c <= '\U{17E}')
        || ('\U{4C1}' <= c <= '\U{4CE}'))
  }

  /**
   * Python's upper-case mapping of one character, which may be longer than
   * one character (`ß` becomes `SS`).  Characters outside the covered blocks
   * are their own capital.
   */
  function UpperChar(c: char): (u: seq<char>)
    ensures 1 <= |u| <= 2
  {
    var n := c as int;
    if 'a' <= c <= 'z' then [(n - 32) as char]
    else if c == '\U{B5}' then ['\U{39C}']
    else if c == '\U{DF}' then "SS"
    else if '\U{E0}' <= c <= '\U{FE}' && c != '\U{F7}' then [(n - 32) as char]
    else if c == '\U{FF}' then ['\U{178}']
    else if IsOddLower(c) || IsEvenLower(c) then [(n - 1) as char]
    else if c == '\U{131}' then "I"
    else if c == '\U{149}' then ['\U{2BC}', 'N']
    else if c == '\U{17F}' then "S"
    else if '\U{430}' <= c <= '\U{44F}' then [(n - 32) as char]
    else if '\U{450}' <= c <= '\U{45F}' then [(n - 80) as char]
    else if c == '\U{4CF}' then ['\U{4C0}']
    else [c]
  }

  /** Every character `UpperChar` produces is already upper case. */
  lemma UpperCharIsUpper(c: char)
    ensures forall i :: 0 <= i < |UpperChar(c)| ==> UpperChar(UpperChar(c)[i]) == [UpperChar(c)[i]]
  {
    var u := UpperChar(c);
    if 'a' <= c <= 'z' || ('\U{E0}' <= c <= '\U{FE}' && c != '\U{F7}') || '\U{430}' <= c <= '\U{44F}' {
      ShiftedCapitalIsUpper(c, 32);
    } else if IsOddLower(c) || IsEvenLower(c) {
      ShiftedCapitalIsUpper(c, 1);
    } else if '\U{450}' <= c <= '\U{45F}' {
      ShiftedCapitalIsUpper(c, 80);
    } else if c == '\U{DF}' || c == '\U{149}' {
      assert UpperChar('S') == "S" && UpperChar('N') == "N" && UpperChar('\U{2BC}') == ['\U{2BC}'];
    } else if c == '\U{B5}' || c == '\U{FF}' || c == '\U{131}' || c == '\U{17F}' || c == '\U{4CF}' {
      assert |u| == 1 && UpperChar(u[0]) == [u[0]];
    } else {
      assert u == [c];
    }
  }

  /** The capitals that lie a fixed distance below their lower-case letter are their own capitals. */
  lemma ShiftedCapitalIsUpper(c: char, shift: int)
    requires
      || (shift == 32 && ('a' <= c <= 'z' || ('\U{E0}' <= c <= '\U{FE}' && c != '\U{F7}') || '\U{430}' <= c <= '\U{44F}'))
      || (shift == 1 && (IsOddLower(c) || IsEvenLower(c)))
      || (shift == 80 && '\U{450}' <= c <= '\U{45F}')
    ensures UpperChar(c) == [(c as int - shift) as char]
    ensures UpperChar((c as int - shift) as char) == [(c as int - shift) as char]
  {
  }

  /** The concatenation of `f` applied to each character of `s`, in order. */
  function FlatMap(f: char -> seq<char>, s: string): string {
    if s == [] then [] else FlatMap(f, s[..|s| - 1]) + f(s[|s| - 1])
  }

  /** Mapping a concatenation is concatenating the mapped parts. */
  lemma {:induction false} FlatMapAppend(f: char -> seq<char>, a: string, b: string)
    ensures FlatMap(f, a + b) == FlatMap(f, a) + FlatMap(f, b)
  {
    if b == [] {
      assert a + b == a;
    } else {
      var ab, b', c := a + b, b[..|b| - 1], b[|b| - 1];
      assert ab[..|ab| - 1] == a + b';
      assert ab[|ab| - 1] == c;
      FlatMapSnoc(f, ab);
      FlatMapSnoc(f, b);
      FlatMapAppend(f, a, b');
      AppendRegroup(FlatMap(f, ab), FlatMap(f, b), FlatMap(f, a), FlatMap(f, b'), f(c));
    }
  }

  /** `FlatMap` of a non-empty string: the map of all but the last character, then that of the last. */
  lemma FlatMapSnoc(f: char -> seq<char>, s: string)
    requires s != []
    ensures FlatMap(f, s) == FlatMap(f, s[..|s| - 1]) + f(s[|s| - 1])
  {
  }

  /** Regrouping a concatenation of three parts. */
  lemma AppendRegroup<T>(whole: seq<T>, back: seq<T>, a: seq<T>, b: seq<T>, tail: seq<T>)
    requires whole == (a + b) + tail && back == b + tail
    ensures whole == a + back
  {
  }

  /** When each character maps to between one and two characters, so does the whole string. */
  lemma {:induction false} FlatMapLength(f: char -> seq<char>, s: string)
    requires forall c :: 1 <= |f(c)| <= 2
    ensures |s| <= |FlatMap(f, s)| <= 2 * |s|
  {
    if s != [] {
      FlatMapLength(f, s[..|s| - 1]);
    }
  }

  /** A string whose characters are fixed points of `f` is unchanged. */
  lemma {:induction false} FlatMapFixed(f: char -> seq<char>, s: string)
    requires forall i :: 0 <= i < |s| ==> f(s[i]) == [s[i]]
    ensures FlatMap(f, s) == s
  {
    if s != [] {
      var init, last := s[..|s| - 1], s[|s| - 1];
      FlatMapFixed(f, init);
      assert FlatMap(f, s) == FlatMap(f, init) + f(last);
      assert s == init + [last];
    }
  }

  /** Where each character maps to exactly one, the string is mapped position by position. */
  lemma {:induction false} FlatMapPointwise(f: char -> seq<char>, s: string)
    requires forall i :: 0 <= i < |s| ==> |f(s[i])| == 1
    ensures |FlatMap(f, s)| == |s|
    ensures forall i :: 0 <= i < |s| ==> FlatMap(f, s)[i] == f(s[i])[0]
  {
    if s != [] {
      FlatMapPointwise(f, s[..|s| - 1]);
    }
  }

  /** Python's `str.upper()`: the concatenation of the per-character capitals; it never shortens a string and at most doubles it. */
  function Upper(s: string): (u: string)
    ensures |s| <= |u| <= 2 * |s|
  {
    FlatMapLength(UpperChar, s);
    FlatMap(UpperChar, s)
  }

  /** `upper()` distributes over concatenation. */
  lemma UpperAppend(a: string, b: string)
    ensures Upper(a + b) == Upper(a) + Upper(b)
  {
    FlatMapAppend(UpperChar, a, b);
  }

  /** A string made of characters that are their own capital is unchanged by `upper()`. */
  lemma UpperOfUpperChars(s: string)
    requires forall i :: 0 <= i < |s| ==> UpperChar(s[i]) == [s[i]]
    ensures Upper(s) == s
  {
    FlatMapFixed(UpperChar, s);
  }

  /** `upper()` is idempotent: upper-casing an upper-cased string changes nothing. */
  lemma {:induction false} UpperIdempotent(s: string)
    ensures Upper(Upper(s)) == Upper(s)
  {
    if s != [] {
      var init, last := s[..|s| - 1], s[|s| - 1];
      UpperIdempotent(init);
      assert Upper(s) == Upper(init) + UpperChar(last);
      UpperAppend(Upper(init), UpperChar(last));
      UpperCharIsUpper(last);
      UpperOfUpperChars(UpperChar(last));
    }
  }

  /** Where every character has a one-character capital, `upper()` works character by character. */
  lemma UpperPointwise(s: string)
    requires forall i :: 0 <= i < |s| ==> |UpperChar(s[i])| == 1
    ensures |Upper(s)| == |s|
    ensures forall i :: 0 <= i < |s| ==> Upper(s)[i] == UpperChar(s[i])[0]
  {
    FlatMapPointwise(UpperChar, s);
  }
}
