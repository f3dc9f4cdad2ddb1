/**
 * The multi-language Scrabble scoring engine: per-language letter values,
 * language detection with a Cyrillic shortcut and fallbacks, and the
 * point total of a word.
 */
module Scrabble {
  import opened Wrappers
  import opened UnicodeText

  /** A table from upper-case letter to its point value. */
  type LetterTable = map<char, int>

  const German: LetterTable := map[
    'E' := 1, 'N' := 1, 'S' := 1, 'I' := 1, 'R' := 1, 'T' := 1, 'U' := 1, 'A' := 1, 'D' := 1,
    'H' := 2, 'G' := 2, 'L' := 2, 'O' := 2,
    'M' := 3, 'B' := 3, 'W' := 3, 'Z' := 3,
    'C' := 4, 'F' := 4, 'K' := 4, 'P' := 4,
    'Ä' := 6, 'J' := 6, 'Ü' := 6, 'V' := 6,
    'Ö' := 8, 'X' := 8,
    'Q' := 10, 'Y' := 10]

  const English: LetterTable := map[
    'E' := 1, 'A' := 1, 'I' := 1, 'O' := 1, 'N' := 1, 'R' := 1, 'T' := 1, 'L' := 1, 'S' := 1, 'U' := 1,
    'D' := 2, 'G' := 2,
    'B' := 3, 'C' := 3, 'M' := 3, 'P' := 3,
    'F' := 4, 'H' := 4, 'V' := 4, 'W' := 4, 'Y' := 4,
    'K' := 5,
    'J' := 8, 'X' := 8,
    'Q' := 10, 'Z' := 10]

  const French: LetterTable := map[
    'E' := 1, 'A' := 1, 'I' := 1, 'N' := 1, 'O' := 1, 'R' := 1, 'S' := 1, 'T' := 1, 'U' := 1, 'L' := 1,
    'D' := 2, 'M' := 2, 'G' := 2,
    'B' := 3, 'C' := 3, 'P' := 3,
    'F' := 4, 'H' := 4, 'V' := 4,
    'J' := 8, 'Q' := 8,
    'K' := 10, 'W' := 10, 'X' := 10, 'Y' := 10, 'Z' := 10]

  const Spanish: LetterTable := map[
    'A' := 1, 'E' := 1, 'O' := 1, 'I' := 1, 'S' := 1, 'N' := 1, 'R' := 1, 'U' := 1, 'L' := 1, 'T' := 1,
    'D' := 2, 'G' := 2,
    'C' := 3, 'B' := 3, 'M' := 3, 'P' := 3,
    'H' := 4, 'F' := 4, 'V' := 4, 'Y' := 4,
    'Q' := 5,
    'J' := 8, 'Ñ' := 8, 'X' := 8,
    'Z' := 10]

  const Italian: LetterTable := map[
    'O' := 1, 'A' := 1, 'I' := 1, 'E' := 1,
    'C' := 2, 'R' := 2, 'S' := 2, 'T' := 2,
    'L' := 3, 'M' := 3, 'N' := 3, 'U' := 3,
    'B' := 5, 'D' := 5, 'F' := 5, 'P' := 5, 'V' := 5,
    'G' := 8, 'H' := 8, 'Z' := 8,
    'Q' := 10]

  const Dutch: LetterTable := map[
    'E' := 1, 'N' := 1, 'A' := 1, 'O' := 1, 'I' := 1,
    'D' := 2, 'R' := 2, 'S' := 2, 'T' := 2,
    'G' := 3, 'K' := 3, 'L' := 3, 'M' := 3, 'B' := 3, 'P' := 3,
    'U' := 4, 'F' := 4, 'H' := 4, 'J' := 4, 'V' := 4, 'Z' := 4,
    'C' := 5, 'W' := 5,
    'X' := 8, 'Y' := 8,
    'Q' := 10]

  const Polish: LetterTable := map[
    'A' := 1, 'I' := 1, 'E' := 1, 'O' := 1, 'N' := 1, 'Z' := 1, 'R' := 1, 'S' := 1, 'W' := 1,
    'Y' := 2, 'C' := 2, 'D' := 2, 'K' := 2, 'L' := 2, 'M' := 2, 'P' := 2, 'T' := 2,
    'B' := 3, 'G' := 3, 'H' := 3, 'J' := 3, 'Ł' := 3, 'U' := 3,
    'Ą' := 5, 'Ę' := 5, 'F' := 5, 'Ó' := 5, 'Ś' := 5, 'Ż' := 5,
    'Ć' := 6,
    'Ń' := 7,
    'Ź' := 9]

  const Portuguese: LetterTable := map[
    'A' := 1, 'E' := 1, 'I' := 1, 'O' := 1, 'S' := 1, 'U' := 1, 'M' := 1, 'R' := 1, 'T' := 1,
    'D' := 2, 'L' := 2, 'C' := 2, 'P' := 2,
    'N' := 3, 'B' := 3, 'Ç' := 3,
    'F' := 4, 'G' := 4, 'H' := 4, 'V' := 4,
    'J' := 5,
    'Q' := 6,
    'X' := 8, 'Z' := 8]

  const Russian: LetterTable := map[
    'О' := 1, 'А' := 1, 'Е' := 1, 'И' := 1, 'Н' := 1, 'Р' := 1, 'С' := 1, 'Т' := 1, 'В' := 1,
    'Д' := 2, 'К' := 2, 'Л' := 2, 'П' := 2, 'У' := 2, 'М' := 2,
    'Б' := 3, 'Г' := 3, 'Ь' := 3, 'Я' := 3, 'Ё' := 3,
    'Ы' := 4, 'Й' := 4,
    'З' := 5, 'Ж' := 5, 'Х' := 5, 'Ц' := 5, 'Ч' := 5,
    'Ш' := 8, 'Э' := 8, 'Ю' := 8,
    'Ф' := 10, 'Щ' := 10, 'Ъ' := 10]

  const Swedish: LetterTable := map[
    'A' := 1, 'R' := 1, 'S' := 1, 'T' := 1, 'E' := 1, 'N' := 1, 'D' := 1, 'I' := 1, 'L' := 1,
    'O' := 2, 'G' := 2, 'K' := 2, 'H' := 2, 'M' := 2,
    'F' := 3, 'V' := 3, 'Ä' := 3, 'B' := 3, 'P' := 3, 'U' := 3, 'Å' := 3,
    'Ö' := 4, 'J' := 4,
    'Y' := 7, 'C' := 7, 'X' := 7,
    'Z' := 8, 'Q' := 8, 'W' := 8]

  /** Written as the source writes it: 'Ş' and 'J' occur twice and the later value wins. */
  const Turkish: LetterTable := map[
    'A' := 1, 'E' := 1, 'I' := 1, 'K' := 1, 'L' := 1, 'R' := 1, 'N' := 1, 'İ' := 1, 'T' := 1,
    'M' := 2, 'S' := 2, 'U' := 2, 'O' := 2, 'D' := 2, 'B' := 2, 'Y' := 2,
    'Ü' := 3, 'Ş' := 3, 'C' := 3, 'Z' := 3, 'Ç' := 3, 'H' := 3, 'P' := 3, 'G' := 3,
    'V' := 4, 'Ö' := 4, 'F' := 4,
    'Ğ' := 5, 'J' := 5,
    'Ş' := 7,
    'J' := 10]

  /** The eleven languages that have a letter table (the keys of `LETTER_POINTS`). */
  datatype Language = De | En | Fr | Es | It | Nl | Pl | Pt | Ru | Sv | Tr

  /** `LETTER_POINTS`: the letter table of each language. */
  function LetterPoints(lang: Language): LetterTable {
    match lang
    case De => German
    case En => English
    case Fr => French
    case Es => Spanish
    case It => Italian
    case Nl => Dutch
    case Pl => Polish
    case Pt => Portuguese
    case Ru => Russian
    case Sv => Swedish
    case Tr => Turkish
  }

  /** The two-letter code of each language. */
  function Code(lang: Language): (code: string)
    ensures |code| == 2
  {
    match lang
    case De => "de"
    case En => "en"
    case Fr => "fr"
    case Es => "es"
    case It => "it"
    case Nl => "nl"
    case Pl => "pl"
    case Pt => "pt"
    case Ru => "ru"
    case Sv => "sv"
    case Tr => "tr"
  }

  /** Membership in `LETTER_POINTS`: the language a code names, if it is one of the eleven. */
  function ParseCode(code: string): (r: Option<Language>)
    ensures r.Some? ==> Code(r.value) == code
  {
    if |code| != 2 then None
    else
      var a, b := code[0], code[1];
      if a == 'd' && b == 'e' then Some(De)
      else if a == 'e' && b == 'n' then Some(En)
      else if a == 'f' && b == 'r' then Some(Fr)
      else if a == 'e' && b == 's' then Some(Es)
      else if a == 'i' && b == 't' then Some(It)
      else if a == 'n' && b == 'l' then Some(Nl)
      else if a == 'p' && b == 'l' then Some(Pl)
      else if a == 'p' && b == 't' then Some(Pt)
      else if a == 'r' && b == 'u' then Some(Ru)
      else if a == 's' && b == 'v' then Some(Sv)
      else if a == 't' && b == 'r' then Some(Tr)
      else None
  }

  /** Every language's code is recognised as that language: codes and languages are in one-to-one correspondence. */
  lemma ParseCodeOfCode(lang: Language)
    ensures ParseCode(Code(lang)) == Some(lang)
  {
  }

  /** `LANGUAGE_NAMES`: the German name of each supported language. */
  function LanguageName(lang: Language): string {
    match lang
    case De => "Deutsch"
    case En => "Englisch"
    case Fr => "Französisch"
    case Es => "Spanisch"
    case It => "Italienisch"
    case Nl => "Niederländisch"
    case Pl => "Polnisch"
    case Pt => "Portugiesisch"
    case Ru => "Russisch"
    case Sv => "Schwedisch"
    case Tr => "Türkisch"
  }

  /** `DEFAULT_LANGUAGE` */
  const DefaultLanguage: Language := De

  /** `LANGUAGE_FALLBACKS`: detector answers without a table, mapped to a related supported language. */
  function LanguageFallback(code: string): (r: Option<Language>)
    ensures r.Some? ==> ParseCode(code).None?
  {
    if |code| != 2 then None
    else
      var a, b := code[0], code[1];
      if a == 'b' && b == 'g' then Some(Ru)
      else if a == 'u' && b == 'k' then Some(Ru)
      else if a == 'm' && b == 'k' then Some(Ru)
      else if a == 's' && b == 'r' then Some(Ru)
      else if a == 'c' && b == 'a' then Some(Es)
      else if a == 'g' && b == 'l' then Some(Pt)
      else if a == 'd' && b == 'a' then Some(Sv)
      else if a == 'n' && b == 'o' then Some(Sv)
      else if a == 'a' && b == 'f' then Some(Nl)
      else if a == 'c' && b == 's' then Some(Pl)
      else if a == 's' && b == 'k' then Some(Pl)
      else if a == 'r' && b == 'o' then Some(It)
      else None
  }

  /** The statistical language detector: a language code, or `None` when it raises. */
  type Detector = string -> Option<string>

  /** The effective Turkish table: the later duplicates in the literal override the earlier ones. */
  lemma TurkishDuplicatesOverride()
    ensures Turkish['Ş'] == 7 && Turkish['J'] == 10
  {
  }

  predicate NonNegative(t: LetterTable) {
    forall c :: c in t ==> t[c] >= 0
  }

  lemma GermanNonNegative() ensures NonNegative(German) { }
  lemma EnglishNonNegative() ensures NonNegative(English) { }
  lemma FrenchNonNegative() ensures NonNegative(French) { }
  lemma SpanishNonNegative() ensures NonNegative(Spanish) { }
  lemma ItalianNonNegative() ensures NonNegative(Italian) { }
  lemma DutchNonNegative() ensures NonNegative(Dutch) { }
  lemma PolishNonNegative() ensures NonNegative(Polish) { }
  lemma PortugueseNonNegative() ensures NonNegative(Portuguese) { }
  lemma RussianNonNegative() ensures NonNegative(Russian) { }
  lemma SwedishNonNegative() ensures NonNegative(Swedish) { }
  lemma TurkishNonNegative() ensures NonNegative(Turkish) { }

  /** No letter of any table is worth a negative number of points. */
  lemma AllTablesNonNegative(lang: Language)
    ensures NonNegative(LetterPoints(lang))
  {
    match lang
    case De => GermanNonNegative();
    case En => EnglishNonNegative();
    case Fr => FrenchNonNegative();
    case Es => SpanishNonNegative();
    case It => ItalianNonNegative();
    case Nl => DutchNonNegative();
    case Pl => PolishNonNegative();
    case Pt => PortugueseNonNegative();
    case Ru => RussianNonNegative();
    case Sv => SwedishNonNegative();
    case Tr => TurkishNonNegative();
  }

  /** `has_cyrillic`'s test of one character: the Unicode Cyrillic block U+0400..U+04FF. */
  predicate IsCyrillic(c: char) {
    '\U{400}' <= c <= '\U{4FF}'
  }

  /** `has_cyrillic`: some character of `text` is Cyrillic. */
  function HasCyrillic(text: string): (b: bool)
    ensures b <==> exists i :: 0 <= i < |text| && IsCyrillic(text[i])
  {
    if text == [] then false
    else IsCyrillic(text[0]) || HasCyrillic(text[1..])
  }

  /**
   * `detect_language`: Russian for Cyrillic text; otherwise the detector's
   * answer if it has a table, else its fallback, else the default.
   */
  function DetectLanguage(text: string, detect: Detector): (lang: Language)
    ensures HasCyrillic(text) ==> lang == Ru
    ensures !HasCyrillic(text) && detect(text).None? ==> lang == DefaultLanguage
    ensures !HasCyrillic(text) && detect(text).Some? ==>
      var answer := detect(text).value;
      && (ParseCode(answer).Some? ==> Code(lang) == answer)
      && (LanguageFallback(answer).Some? ==> lang == LanguageFallback(answer).value)
      && (ParseCode(answer).None? && LanguageFallback(answer).None? ==> lang == DefaultLanguage)
  {
    if HasCyrillic(text) then Ru
    else match detect(text)
      case None => DefaultLanguage
      case Some(answer) =>
        match ParseCode(answer)
        case Some(lang) => lang
        case None =>
          match LanguageFallback(answer)
          case Some(lang) => lang
          case None => DefaultLanguage
  }

  /** Cyrillic text is classified without consulting the detector. */
  lemma CyrillicIgnoresDetector(text: string, d1: Detector, d2: Detector)
    requires exists i :: 0 <= i < |text| && IsCyrillic(text[i])
    ensures DetectLanguage(text, d1) == DetectLanguage(text, d2) == Ru
  {
  }

  /**
   * The language `calculate_points` scores in: a supported hint is kept, any
   * other hint becomes the default, and without a hint the word is detected.
   */
  function ResolveLanguage(word: string, hint: Option<string>, detect: Detector): (lang: Language)
    ensures hint.Some? && ParseCode(hint.value).Some? ==> Code(lang) == hint.value
    ensures hint.Some? && ParseCode(hint.value).None? ==> lang == DefaultLanguage
    ensures hint.None? ==> lang == DetectLanguage(word, detect)
  {
    match hint
    case None => DetectLanguage(word, detect)
    case Some(code) =>
      match ParseCode(code)
      case Some(lang) => lang
      case None => DefaultLanguage
  }

  /** The value of one letter: `points_map.get(char, 0)`. */
  function LetterValue(t: LetterTable, c: char): int {
    if c in t then t[c] else 0
  }

  /** The sum of the letter values of `s`; letters outside the table count 0. */
  function WordScore(t: LetterTable, s: string): int {
    if s == [] then 0 else WordScore(t, s[..|s| - 1]) + LetterValue(t, s[|s| - 1])
  }

  /** Extending a prefix by one letter adds that letter's value. */
  lemma WordScoreStep(t: LetterTable, s: string, i: nat)
    requires i < |s|
    ensures WordScore(t, s[..i + 1]) == WordScore(t, s[..i]) + LetterValue(t, s[i])
  {
    assert s[..i + 1][..i] == s[..i];
  }

  /** The score of a concatenation is the sum of the scores. */
  lemma {:induction false} WordScoreAppend(t: LetterTable, a: string, b: string)
    ensures WordScore(t, a + b) == WordScore(t, a) + WordScore(t, b)
  {
    if b == [] {
      assert a + b == a;
    } else {
      var b' := b[..|b| - 1];
      assert (a + b)[..|a + b| - 1] == a + b';
      assert (a + b)[|a + b| - 1] == b[|b| - 1];
      WordScoreAppend(t, a, b');
    }
  }

  /** With a table of non-negative values, every word scores at least 0. */
  lemma {:induction false} WordScoreNonNegative(t: LetterTable, s: string)
    requires NonNegative(t)
    ensures WordScore(t, s) >= 0
  {
    if s != [] {
      WordScoreNonNegative(t, s[..|s| - 1]);
    }
  }

  /** A word made only of letters absent from the table scores 0. */
  lemma {:induction false} WordScoreOutsideTable(t: LetterTable, s: string)
    requires forall i :: 0 <= i < |s| ==> s[i] !in t
    ensures WordScore(t, s) == 0
  {
    if s != [] {
      WordScoreOutsideTable(t, s[..|s| - 1]);
    }
  }

  /** `calculate_points`: resolve the language, then add up the letter values of the upper-cased word. */
  method CalculatePoints(word: string, hint: Option<string>, detect: Detector) returns (total: int, lang: string)
    ensures lang == Code(ResolveLanguage(word, hint, detect))
    ensures total == WordScore(LetterPoints(ResolveLanguage(word, hint, detect)), Upper(word))
    ensures total >= 0
    ensures (total, lang) == Points(word, hint, detect)
  {
    lang := match hint
      case Some(code) => code
      case None => Code(DetectLanguage(word, detect));
    var language: Language;
    match ParseCode(lang) {
      case Some(l) =>
        language := l;
      case None =>
        language, lang := DefaultLanguage, Code(DefaultLanguage);
    }
    if hint.None? {
      ParseCodeOfCode(DetectLanguage(word, detect));
    }
    assert language == ResolveLanguage(word, hint, detect);
    var pointsMap := LetterPoints(language);
    var upper := Upper(word);
    total := 0;
    for i := 0 to |upper|
      invariant total == WordScore(pointsMap, upper[..i])
    {
      WordScoreStep(pointsMap, upper, i);
      total := total + LetterValue(pointsMap, upper[i]);
    }
    assert upper[..|upper|] == upper;
    AllTablesNonNegative(language);
    WordScoreNonNegative(pointsMap, upper);
  }

  /** The points and the language code `calculate_points` returns, as a value for its callers' specifications. */
  function Points(word: string, hint: Option<string>, detect: Detector): (r: (int, string))
    ensures r.0 >= 0 && ParseCode(r.1).Some?
  {
    var lang := ResolveLanguage(word, hint, detect);
    AllTablesNonNegative(lang);
    WordScoreNonNegative(LetterPoints(lang), Upper(word));
    ParseCodeOfCode(lang);
    (WordScore(LetterPoints(lang), Upper(word)), Code(lang))
  }

  /** A supported hint is returned unchanged; any other hint, such as "xx", gives the default "de". */
  lemma HintDecidesLanguage(word: string, hint: string, detect: Detector)
    ensures ParseCode(hint).Some? ==> Points(word, Some(hint), detect).1 == hint
    ensures ParseCode(hint).None? ==> Points(word, Some(hint), detect).1 == "de"
  {
  }

  /** With a language given, the score of a concatenation is the sum of the scores of its parts. */
  lemma ScoreOfConcatenation(a: string, b: string, hint: string, detect: Detector)
    ensures Points(a + b, Some(hint), detect).0
         == Points(a, Some(hint), detect).0 + Points(b, Some(hint), detect).0
  {
    var t := LetterPoints(ResolveLanguage(a, Some(hint), detect));
    UpperAppend(a, b);
    WordScoreAppend(t, Upper(a), Upper(b));
  }

  /**
   * With a language given, scoring is case-insensitive: the upper-cased word
   * scores the same, in the same language. Without one, the detector sees the
   * word as written and may answer differently for the two spellings.
   */
  lemma ScoreIgnoresCase(word: string, hint: string, detect: Detector)
    ensures Points(Upper(word), Some(hint), detect) == Points(word, Some(hint), detect)
  {
    UpperIdempotent(word);
  }

  /** `get_language_name`: the German name of a supported language, otherwise the code itself. */
  function GetLanguageName(code: string): (name: string)
    ensures ParseCode(code).Some? ==> name == LanguageName(ParseCode(code).value)
    ensures ParseCode(code).None? ==> name == code
  {
    match ParseCode(code)
    case Some(lang) => LanguageName(lang)
    case None => code
  }

  /** Every language the engine scores in is reported by its German name, never by its bare code. */
  lemma ScoredLanguageIsNamed(lang: Language)
    ensures GetLanguageName(Code(lang)) == LanguageName(lang) != Code(lang)
  {
    ParseCodeOfCode(lang);
  }

  /** The score of a word of five letters, letter by letter. */
  lemma FiveLetterScore(t: LetterTable, s: string)
    requires |s| == 5
    ensures WordScore(t, s) == LetterValue(t, s[0]) + LetterValue(t, s[1]) + LetterValue(t, s[2])
                               + LetterValue(t, s[3]) + LetterValue(t, s[4])
  {
    assert WordScore(t, s) == WordScore(t, s[..4]) + LetterValue(t, s[4]);
    assert s[..4][..3] == s[..3];
    assert WordScore(t, s[..4]) == WordScore(t, s[..3]) + LetterValue(t, s[3]);
    assert s[..3][..2] == s[..2];
    assert WordScore(t, s[..3]) == WordScore(t, s[..2]) + LetterValue(t, s[2]);
    assert s[..2][..1] == s[..1];
    assert WordScore(t, s[..2]) == WordScore(t, s[..1]) + LetterValue(t, s[1]);
    assert s[..1][..0] == [];
    assert WordScore(t, s[..1]) == LetterValue(t, s[0]);
  }

  /** Step of the "Hallo" example: the word upper-cases to "HALLO". */
  lemma UpperHallo() ensures Upper("Hallo") == "HALLO" { UpperPointwise("Hallo"); }
  /** Step of the "hello" example: the word upper-cases to "HELLO". */
  lemma UpperHello() ensures Upper("hello") == "HELLO" { UpperPointwise("hello"); }

  /** Step of the "Hallo" example: "HALLO" sums to 9 in the German table. */
  lemma GermanHallo() ensures WordScore(German, "HALLO") == 9 {
    FiveLetterScore(German, "HALLO");
    assert German['H'] == 2 && German['A'] == 1 && German['L'] == 2 && German['O'] == 2;
  }

  /** Step of the "hello" example: "HELLO" sums to 8 in the English table. */
  lemma EnglishHello() ensures WordScore(English, "HELLO") == 8 {
    FiveLetterScore(English, "HELLO");
    assert English['H'] == 4 && English['E'] == 1 && English['L'] == 1 && English['O'] == 1;
  }

  /** "Hallo" is worth 9 points in German: H=2, A=1, L=2, L=2, O=2. */
  lemma ExampleHallo(detect: Detector)
    ensures Points("Hallo", Some("de"), detect) == (9, "de")
  {
    assert ResolveLanguage("Hallo", Some("de"), detect) == De;
    UpperHallo();
    GermanHallo();
  }

  /** "hello" is worth 8 points in English: H=4, E=1, L=1, L=1, O=1. */
  lemma ExampleHello(detect: Detector)
    ensures Points("hello", Some("en"), detect) == (8, "en")
  {
    assert ResolveLanguage("hello", Some("en"), detect) == En;
    UpperHello();
    EnglishHello();
  }

  /** "HELLO" and "hello" score alike in English. */
  lemma ExampleCaseInsensitive(detect: Detector)
    ensures Points("HELLO", Some("en"), detect) == Points("hello", Some("en"), detect)
  {
    UpperHello();
    UpperOfUpperChars("HELLO");
  }

  /** The empty word is worth nothing. */
  lemma ExampleEmpty(detect: Detector)
    ensures Points("", Some("de"), detect).0 == 0
  {
  }
}
