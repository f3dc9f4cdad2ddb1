/**
 * The pure text helpers of the bot: HTML tag removal, `strip()`, `split()`,
 * removal of `@handle` mentions, word extraction and the German reply.
 * Python's regular expressions are written out as explicit left-to-right
 * scans with the same greedy matching.
 */
module BotText {
  import opened Wrappers
  import opened UnicodeText
  import opened Scrabble

  /** `html.unescape`, the HTML entity decoder: left abstract. */
  type Decoder = string -> string

  // ---------------------------------------------------------------------
  // re.sub(r'<[^>]+>', ' ', text)
  // ---------------------------------------------------------------------

  /** A match of `<[^>]+>`: `<`, at least one character other than `>`, then `>`. */
  predicate IsTag(t: string) {
    && |t| >= 3
    && t[0] == '<'
    && t[|t| - 1] == '>'
    && forall k :: 0 < k < |t| - 1 ==> t[k] != '>'
  }

  /** Some stretch of `s` matches the tag pattern. */
  predicate HasTag(s: string) {
    exists i, j :: 0 <= i < j <= |s| && IsTag(s[i..j])
  }

  /** The first position at or after `from` holding `c`, if any. */
  function IndexOf(s: string, c: char, from: nat): (r: Option<nat>)
    requires from <= |s|
    ensures r.Some? ==> from <= r.value < |s| && s[r.value] == c
    ensures r.Some? ==> forall k :: from <= k < r.value ==> s[k] != c
    ensures r.None? ==> forall k :: from <= k < |s| ==> s[k] != c
    decreases |s| - from
  {
    if from == |s| then None
    else if s[from] == c then Some(from)
    else IndexOf(s, c, from + 1)
  }

  /**
   * Where the tag that starts at the beginning of `s` closes: the greedy
   * `[^>]+` runs up to the first `>`, and the match needs one character
   * before it.
   */
  function TagClose(s: string): (r: Option<nat>)
    ensures r.Some? ==> r.value < |s| && IsTag(s[..r.value + 1])
    ensures r.None? ==> forall j :: 0 < j <= |s| ==> !IsTag(s[..j])
  {
    if s == [] || s[0] != '<' then None
    else match IndexOf(s, '>', 1)
      case Some(k) => if k >= 2 then Some(k) else None
      case None => None
  }

  /** The tag pass of `strip_html`: every tag becomes one space, scanning left to right. */
  function StripTags(s: string): (r: string)
    ensures forall k :: 0 <= k < |r| ==> r[k] == ' ' || r[k] in s
    ensures |s| > 0 && s[0] != '<' ==> |r| > 0 && r[0] == s[0]
    decreases |s|
  {
    if s == [] then []
    else match TagClose(s)
      case Some(k) => " " + StripTags(s[k + 1..])
      case None => [s[0]] + StripTags(s[1..])
  }

  /** A stretch of `s` that is a tag witnesses `HasTag(s)`. */
  lemma TagWitness(s: string, i: nat, j: nat)
    requires i < j <= |s| && IsTag(s[i..j])
    ensures HasTag(s)
  {
  }

  /** A tag in `t` is a tag in `[c] + t`. */
  lemma HasTagOfTail(c: char, t: string)
    requires HasTag(t)
    ensures HasTag([c] + t)
  {
    var i, j :| 0 <= i < j <= |t| && IsTag(t[i..j]);
    assert ([c] + t)[i + 1..j + 1] == t[i..j];
  }

  /** A tag in `[c] + t` that does not start at `c` is a tag in `t`. */
  lemma HasTagTail(c: char, t: string)
    requires HasTag([c] + t)
    requires forall j :: 0 < j <= |t| + 1 ==> !IsTag(([c] + t)[..j])
    ensures HasTag(t)
  {
    var s := [c] + t;
    var i, j :| 0 <= i < j <= |s| && IsTag(s[i..j]);
    if i != 0 {
      assert t[i - 1..j - 1] == s[i..j];
    }
  }

  /** A character that starts no tag, such as a `<` that is not closed after at least one character, is copied by the tag pass. */
  lemma StripTagsKeepsChar(s: string)
    requires s != []
    requires forall j :: 0 < j <= |s| ==> !IsTag(s[..j])
    ensures StripTags(s) == [s[0]] + StripTags(s[1..])
  {
  }

  /** The output of the tag pass contains no tag: every match has been replaced. */
  lemma {:induction false} StripTagsLeavesNoTag(s: string)
    ensures !HasTag(StripTags(s))
    decreases |s|
  {
    if s != [] {
      var r := StripTags(s);
      match TagClose(s)
      case Some(k) =>
        StripTagsLeavesNoTag(s[k + 1..]);
        var t := StripTags(s[k + 1..]);
        assert r == [' '] + t;
        if HasTag(r) {
          forall j | 0 < j <= |t| + 1 ensures !IsTag(r[..j]) { }
          HasTagTail(' ', t);
        }
      case None =>
        StripTagsLeavesNoTag(s[1..]);
        var t := StripTags(s[1..]);
        assert r == [s[0]] + t;
        if HasTag(r) {
          forall j | 0 < j <= |t| + 1 ensures !IsTag(r[..j]) {
            if s[0] == '<' && j >= 3 {
              match IndexOf(s, '>', 1)
              case Some(k) =>
                assert k == 1 && s[1] == '>';
                assert r[..j][1] == '>';
              case None =>
            }
          }
          HasTagTail(s[0], t);
        }
    }
  }

  /** Text without tags passes through the tag pass unchanged. */
  lemma {:induction false} StripTagsOfTagFree(s: string)
    requires !HasTag(s)
    ensures StripTags(s) == s
    decreases |s|
  {
    if s != [] {
      match TagClose(s)
      case Some(k) =>
        TagWitness(s, 0, k + 1);
        assert false;
      case None =>
        if HasTag(s[1..]) {
          assert [s[0]] + s[1..] == s;
          HasTagOfTail(s[0], s[1..]);
          assert false;
        }
        StripTagsOfTagFree(s[1..]);
        assert s == [s[0]] + s[1..];
    }
  }

  /** Stripping tags twice is stripping them once. */
  lemma StripTagsIdempotent(s: string)
    ensures StripTags(StripTags(s)) == StripTags(s)
  {
    StripTagsLeavesNoTag(s);
    StripTagsOfTagFree(StripTags(s));
  }

  /** A tag at the start of the text becomes a single space; scanning resumes after it. */
  lemma StripTagsReplacesTag(tag: string, rest: string)
    requires IsTag(tag)
    ensures StripTags(tag + rest) == " " + StripTags(rest)
  {
    var s := tag + rest;
    assert s[..|tag|] == tag;
    var k := IndexOf(s, '>', 1).value;
    assert k == |tag| - 1;
    assert s[k + 1..] == rest;
  }

  /** Text without `<` before the rest is copied unchanged. */
  lemma {:induction false} StripTagsKeepsText(text: string, rest: string)
    requires '<' !in text
    ensures StripTags(text + rest) == text + StripTags(rest)
    decreases |text|
  {
    if text != [] {
      var s := text + rest;
      assert s[1..] == text[1..] + rest;
      StripTagsKeepsText(text[1..], rest);
      assert text == [text[0]] + text[1..];
    } else {
      assert text + rest == rest;
    }
  }

  // ---------------------------------------------------------------------
  // str.strip() and str.split() without arguments
  // ---------------------------------------------------------------------

  /** Text made only of whitespace (possibly none). */
  predicate AllSpace(s: string) {
    forall k :: 0 <= k < |s| ==> IsSpace(s[k])
  }

  /** Neither the first nor the last character is whitespace. */
  predicate NoEdgeSpace(s: string) {
    s == [] || (!IsSpace(s[0]) && !IsSpace(s[|s| - 1]))
  }

  /** The number of whitespace characters `strip()` removes at the front. */
  function LeadingSpace(s: string): (n: nat)
    ensures n <= |s|
    ensures forall k :: 0 <= k < n ==> IsSpace(s[k])
    ensures n < |s| ==> !IsSpace(s[n])
  {
    if s == [] || !IsSpace(s[0]) then 0 else 1 + LeadingSpace(s[1..])
  }

  /** The number of whitespace characters `strip()` removes at the back. */
  function TrailingSpace(s: string): (n: nat)
    ensures n <= |s|
    ensures forall k :: |s| - n <= k < |s| ==> IsSpace(s[k])
    ensures n < |s| ==> !IsSpace(s[|s| - n - 1])
  {
    if s == [] || !IsSpace(s[|s| - 1]) then 0 else 1 + TrailingSpace(s[..|s| - 1])
  }

  /** `r` is `s` with only whitespace removed at both ends. */
  ghost predicate IsStripOf(s: string, r: string) {
    exists a :: 0 <= a && a + |r| <= |s| && AllSpace(s[..a]) && s[a..a + |r|] == r && AllSpace(s[a + |r|..])
  }

  /** `str.strip()`: the text between the leading and the trailing whitespace. */
  function Strip(s: string): (r: string)
    ensures NoEdgeSpace(r)
    ensures IsStripOf(s, r)
  {
    var a := LeadingSpace(s);
    var rest := s[a..];
    var n := |rest| - TrailingSpace(rest);
    TakeOfDrop(s, a, n);
    DropOfDrop(s, a, n);
    assert AllSpace(s[..a]);
    assert AllSpace(rest[n..]);
    rest[..n]
  }

  /** A prefix of a suffix is a middle slice. */
  lemma TakeOfDrop<T>(s: seq<T>, a: nat, n: nat)
    requires a + n <= |s|
    ensures s[a..][..n] == s[a..a + n]
  {
  }

  /** A suffix of a suffix is a suffix. */
  lemma DropOfDrop<T>(s: seq<T>, a: nat, n: nat)
    requires a + n <= |s|
    ensures s[a..][n..] == s[a + n..]
  {
  }

  /** Stripping already stripped text changes nothing. */
  lemma StripIdempotent(s: string)
    requires NoEdgeSpace(s)
    ensures Strip(s) == s
  {
  }

  /** A word of `split()`: non-empty and free of whitespace. */
  predicate IsToken(w: string) {
    |w| > 0 && forall k :: 0 <= k < |w| ==> !IsSpace(w[k])
  }

  /** The length of the longest prefix without whitespace. */
  function WordLength(t: string): (n: nat)
    ensures n <= |t|
    ensures forall k :: 0 <= k < n ==> !IsSpace(t[k])
    ensures n < |t| ==> IsSpace(t[n])
  {
    if t == [] || IsSpace(t[0]) then 0 else 1 + WordLength(t[1..])
  }

  /** `str.split()`: the maximal runs of non-whitespace, in order. */
  function Split(s: string): seq<string>
    decreases |s|
  {
    if s == [] then []
    else if IsSpace(s[0]) then Split(s[1..])
    else
      var n := WordLength(s);
      [s[..n]] + Split(s[n..])
  }

  /** Every word of `split()` is non-empty and free of whitespace, and there are none exactly when the text is all whitespace. */
  lemma {:induction false} SplitWords(s: string)
    ensures forall k :: 0 <= k < |Split(s)| ==> IsToken(Split(s)[k])
    ensures Split(s) == [] <==> AllSpace(s)
    decreases |s|
  {
    if s == [] {
    } else if IsSpace(s[0]) {
      SplitWords(s[1..]);
      assert AllSpace(s) <==> AllSpace(s[1..]) by {
        if AllSpace(s[1..]) {
          forall k | 0 <= k < |s| ensures IsSpace(s[k]) {
            if k > 0 { assert s[k] == s[1..][k - 1]; }
          }
        }
      }
    } else {
      var n := WordLength(s);
      SplitWords(s[n..]);
      var words := Split(s);
      assert words == [s[..n]] + Split(s[n..]);
      forall k | 0 <= k < |words| ensures IsToken(words[k]) {
        if k > 0 { assert words[k] == Split(s[n..])[k - 1]; }
      }
    }
  }

  /** Appending text that is empty or starts with whitespace leaves the length of the leading word unchanged. */
  lemma {:induction false} WordLengthAppend(a: string, b: string)
    requires b == [] || IsSpace(b[0])
    ensures WordLength(a + b) == WordLength(a)
    decreases |a|
  {
    if a == [] {
      assert a + b == b;
    } else {
      assert (a + b)[1..] == a[1..] + b;
      WordLengthAppend(a[1..], b);
    }
  }

  /** Slicing a concatenation within its left part. */
  lemma AppendSlices<T>(a: seq<T>, b: seq<T>, n: nat)
    requires n <= |a|
    ensures |a| > 0 ==> (a + b)[0] == a[0]
    ensures (a + b)[..n] == a[..n]
    ensures (a + b)[n..] == a[n..] + b
  {
  }

  /** Regrouping a sequence that starts with one element. */
  lemma ConsAppend<T>(x: T, front: seq<T>, back: seq<T>, whole: seq<T>, left: seq<T>)
    requires whole == [x] + (front + back)
    requires left == [x] + front
    ensures whole == left + back
  {
  }

  /** `split()` skips a leading whitespace character. */
  lemma SplitAtSpace(s: string)
    requires s != [] && IsSpace(s[0])
    ensures Split(s) == Split(s[1..])
  {
  }

  /** `split()` of text that starts with a word: that word, then the words of the rest. */
  lemma SplitAtWord(s: string)
    requires s != [] && !IsSpace(s[0])
    ensures Split(s) == [s[..WordLength(s)]] + Split(s[WordLength(s)..])
  {
  }

  /** Whitespace in front of `a` is skipped in `a + b` as in `a`. */
  lemma SplitAppendSpace(a: string, b: string)
    requires a != [] && IsSpace(a[0])
    requires Split(a[1..] + b) == Split(a[1..]) + Split(b)
    ensures Split(a + b) == Split(a) + Split(b)
  {
    AppendSlices(a, b, 1);
    SplitAtSpace(a + b);
    SplitAtSpace(a);
  }

  /** The first word of `a` is the first word of `a + b` when `b` starts at a word boundary. */
  lemma SplitAppendWord(a: string, b: string)
    requires a != [] && !IsSpace(a[0])
    requires b == [] || IsSpace(b[0])
    requires Split(a[WordLength(a)..] + b) == Split(a[WordLength(a)..]) + Split(b)
    ensures Split(a + b) == Split(a) + Split(b)
  {
    var n := WordLength(a);
    AppendSlices(a, b, n);
    WordLengthAppend(a, b);
    SplitAtWord(a + b);
    SplitAtWord(a);
    ConsAppend(a[..n], Split(a[n..]), Split(b), Split(a + b), Split(a));
  }

  /** Splitting at a whitespace boundary: the words of `a + b` are the words of `a`, then those of `b`. */
  lemma {:induction false} SplitAppend(a: string, b: string)
    requires b == [] || IsSpace(b[0])
    ensures Split(a + b) == Split(a) + Split(b)
    decreases |a|
  {
    if a == [] {
      assert a + b == b;
    } else if IsSpace(a[0]) {
      SplitAppend(a[1..], b);
      SplitAppendSpace(a, b);
    } else {
      SplitAppend(a[WordLength(a)..], b);
      SplitAppendWord(a, b);
    }
  }

  /** For text without whitespace at its ends, `split()` gives one word exactly when the text is that word. */
  lemma SingleWordIsWholeText(s: string)
    requires NoEdgeSpace(s)
    ensures |Split(s)| == 1 <==> IsToken(s)
    ensures |Split(s)| == 1 ==> Split(s)[0] == s
  {
    if s != [] {
      var n := WordLength(s);
      assert Split(s) == [s[..n]] + Split(s[n..]);
      SplitWords(s[n..]);
      if n < |s| {
        assert s[n..][|s| - 1 - n] == s[|s| - 1];
        assert !AllSpace(s[n..]);
      } else {
        assert s[n..] == [];
      }
    }
  }

  // ---------------------------------------------------------------------
  // re.sub(r'@\w+(@[\w.]+)?', '', text)
  // ---------------------------------------------------------------------

  /** `[\w.]`: a character of the instance part of a handle. */
  predicate IsDomainChar(c: char) {
    IsWordChar(c) || c == '.'
  }

  /** The length of the longest prefix of `\w` characters (the greedy `\w+`). */
  function WordRun(s: string): (n: nat)
    ensures n <= |s| && (n == |s| || !IsWordChar(s[n]))
    ensures forall k :: 0 <= k < n ==> IsWordChar(s[k])
  {
    if s == [] || !IsWordChar(s[0]) then 0 else 1 + WordRun(s[1..])
  }

  /** The length of the longest prefix of `[\w.]` characters (the greedy `[\w.]+`). */
  function DomainRun(s: string): (n: nat)
    ensures n <= |s| && (n == |s| || !IsDomainChar(s[n]))
    ensures forall k :: 0 <= k < n ==> IsDomainChar(s[k])
  {
    if s == [] || !IsDomainChar(s[0]) then 0 else 1 + DomainRun(s[1..])
  }

  /**
   * The length of the match of `@\w+(@[\w.]+)?` at the start of `s`, or 0:
   * `@` and a maximal run of word characters, then, when an `@` and at least
   * one `[\w.]` follow, that `@` and the maximal `[\w.]` run.
   */
  function HandleMatch(s: string): (n: nat)
    ensures n <= |s|
    ensures n > 0 <==> |s| >= 2 && s[0] == '@' && IsWordChar(s[1])
    ensures n > 0 ==> n == |s| || !IsWordChar(s[n])
  {
    if |s| < 2 || s[0] != '@' || !IsWordChar(s[1]) then 0
    else
      var user := 1 + WordRun(s[1..]);
      var rest := s[user..];
      if |rest| >= 2 && rest[0] == '@' && IsDomainChar(rest[1]) then
        user + 1 + DomainRun(rest[1..])
      else user
  }

  /** The handle pass: every match is deleted, scanning left to right. */
  function RemoveHandles(s: string): (r: string)
    ensures |r| <= |s|
    ensures s == [] || !IsWordChar(s[0]) ==> r == [] || !IsWordChar(r[0])
    decreases |s|
  {
    if s == [] then []
    else
      var n := HandleMatch(s);
      if n > 0 then RemoveHandles(s[n..]) else [s[0]] + RemoveHandles(s[1..])
  }

  /** After the handle pass no handle is left: deleting one never joins the text around it into a new one. */
  lemma {:induction false} RemoveHandlesLeavesNone(s: string)
    ensures forall i :: 0 <= i < |RemoveHandles(s)| ==> HandleMatch(RemoveHandles(s)[i..]) == 0
    decreases |s|
  {
    if s != [] {
      var n := HandleMatch(s);
      if n > 0 {
        RemoveHandlesLeavesNone(s[n..]);
      } else {
        var t := RemoveHandles(s[1..]);
        var r := [s[0]] + t;
        RemoveHandlesLeavesNone(s[1..]);
        forall i | 0 <= i < |r| ensures HandleMatch(r[i..]) == 0 {
          if i > 0 {
            assert r[i..] == t[i - 1..];
          }
        }
      }
    }
  }

  /** Text without `@` has nothing to remove. */
  lemma {:induction false} RemoveHandlesWithoutAt(s: string)
    requires '@' !in s
    ensures RemoveHandles(s) == s
    decreases |s|
  {
    if s != [] {
      RemoveHandlesWithoutAt(s[1..]);
      assert s == [s[0]] + s[1..];
    }
  }

  /** Every character is a word character (`\w*`). */
  predicate AllWord(s: string) {
    forall k :: 0 <= k < |s| ==> IsWordChar(s[k])
  }

  /** Every character is a word character or a dot (`[\w.]*`). */
  predicate AllDomain(s: string) {
    forall k :: 0 <= k < |s| ==> IsDomainChar(s[k])
  }

  /**
   * `t` belongs to the language of `@\w+(@[\w.]+)?`: an `@`, a non-empty run
   * of word characters, and optionally a second `@` followed by a non-empty
   * run of word characters and dots.
   */
  ghost predicate IsHandle(t: string) {
    && |t| >= 2 && t[0] == '@'
    && (|| AllWord(t[1..])
        || exists u :: 2 <= u < |t| - 1 && t[u] == '@' && AllWord(t[1..u]) && AllDomain(t[u + 1..]))
  }

  /** The second `@` of a handle can only be the first character after its word run. */
  lemma SecondAtEndsWordRun(t: string, user: nat, u: nat)
    requires 2 <= u < |t| && 1 <= user < |t|
    requires forall k :: 1 <= k < user ==> IsWordChar(t[k])
    requires !IsWordChar(t[user])
    requires t[u] == '@' && AllWord(t[1..u])
    ensures u == user
  {
    assert !IsWordChar('@');
  }

  /**
   * A handle that goes past the end of its word run continues there with
   * `@`, and everything after that `@` is in `[\w.]`.
   */
  lemma HandlePastWordRun(t: string, user: nat)
    requires IsHandle(t)
    requires 1 <= user < |t|
    requires forall k :: 1 <= k < user ==> IsWordChar(t[k])
    requires !IsWordChar(t[user])
    ensures t[user] == '@' && user + 2 <= |t|
    ensures forall k :: user < k < |t| ==> IsDomainChar(t[k])
  {
    assert !AllWord(t[1..]) by {
      assert t[1..][user - 1] == t[user];
    }
    var u :| 2 <= u < |t| - 1 && t[u] == '@' && AllWord(t[1..u]) && AllDomain(t[u + 1..]);
    SecondAtEndsWordRun(t, user, u);
    forall k | user < k < |t| ensures IsDomainChar(t[k]) {
      assert t[u + 1..][k - u - 1] == t[k];
    }
  }

  /** Text that does not start with `@` and a word character has no handle prefix. */
  lemma NoHandleWithoutStart(s: string)
    requires !(|s| >= 2 && s[0] == '@' && IsWordChar(s[1]))
    ensures forall m :: 0 <= m <= |s| ==> !IsHandle(s[..m])
  {
    forall m | 0 <= m <= |s| ensures !IsHandle(s[..m]) {
      assert m < 2 || s[..m][0] != '@' || !IsWordChar(s[..m][1]);
    }
  }

  /** A handle whose word run is not followed by `@` and a `[\w.]` ends with its word run. */
  lemma LongestUserHandle(s: string, user: nat)
    requires 2 <= user <= |s| && s[0] == '@'
    requires forall k :: 1 <= k < user ==> IsWordChar(s[k])
    requires user == |s| || !IsWordChar(s[user])
    requires !(user + 2 <= |s| && s[user] == '@' && IsDomainChar(s[user + 1]))
    ensures IsHandle(s[..user])
    ensures forall m :: user < m <= |s| ==> !IsHandle(s[..m])
  {
    assert AllWord(s[..user][1..]);
    forall m | user < m <= |s| ensures !IsHandle(s[..m]) {
      if IsHandle(s[..m]) {
        HandlePastWordRun(s[..m], user);
        assert false;
      }
    }
  }

  /** A handle whose word run is followed by `@` and a `[\w.]` ends with the maximal `[\w.]` run. */
  lemma LongestDomainHandle(s: string, user: nat, n: nat)
    requires 2 <= user && user + 1 < n <= |s| && s[0] == '@' && s[user] == '@'
    requires forall k :: 1 <= k < user ==> IsWordChar(s[k])
    requires forall k :: user < k < n ==> IsDomainChar(s[k])
    requires n == |s| || !IsDomainChar(s[n])
    ensures IsHandle(s[..n])
    ensures forall m :: n < m <= |s| ==> !IsHandle(s[..m])
  {
    var t := s[..n];
    assert AllWord(t[1..user]) && AllDomain(t[user + 1..]);
    assert 2 <= user < |t| - 1 && t[user] == '@';
    forall m | n < m <= |s| ensures !IsHandle(s[..m]) {
      if IsHandle(s[..m]) {
        HandlePastWordRun(s[..m], user);
        assert false;
      }
    }
  }

  /**
   * The greedy match is the longest handle at the start of `s`: when it is
   * not empty it is a handle, and no longer prefix of `s` is one.
   */
  lemma HandleMatchIsLongestHandle(s: string)
    ensures HandleMatch(s) > 0 ==> IsHandle(s[..HandleMatch(s)])
    ensures forall m :: HandleMatch(s) < m <= |s| ==> !IsHandle(s[..m])
  {
    var n := HandleMatch(s);
    if |s| < 2 || s[0] != '@' || !IsWordChar(s[1]) {
      NoHandleWithoutStart(s);
    } else {
      var w := WordRun(s[1..]);
      var user := 1 + w;
      var rest := s[user..];
      forall k | 1 <= k < user ensures IsWordChar(s[k]) {
        assert s[1..][k - 1] == s[k];
      }
      assert user == |s| || s[1..][w] == s[user];
      if |rest| >= 2 && rest[0] == '@' && IsDomainChar(rest[1]) {
        var d := DomainRun(rest[1..]);
        forall k | user < k < n ensures IsDomainChar(s[k]) {
          assert rest[1..][k - user - 1] == s[k];
        }
        assert n == |s| || rest[1..][d] == s[n];
        LongestDomainHandle(s, user, n);
      } else {
        LongestUserHandle(s, user);
      }
    }
  }

  /** A character other than `@` is copied by the handle pass. */
  lemma RemoveHandlesCons(s: string)
    requires s != [] && s[0] != '@'
    ensures RemoveHandles(s) == [s[0]] + RemoveHandles(s[1..])
  {
  }

  /** A character that starts no handle, such as an `@` not followed by a word character, is copied by the handle pass. */
  lemma RemoveHandlesKeepsChar(s: string)
    requires s != []
    requires forall m :: 0 < m <= |s| ==> !IsHandle(s[..m])
    ensures RemoveHandles(s) == [s[0]] + RemoveHandles(s[1..])
  {
    HandleMatchIsLongestHandle(s);
  }

  /** The handle pass copies text without `@` and goes on with what follows. */
  lemma {:induction false} RemoveHandlesKeepsText(text: string, rest: string)
    requires '@' !in text
    ensures RemoveHandles(text + rest) == text + RemoveHandles(rest)
    decreases |text|
  {
    if text == [] {
      assert text + rest == rest;
    } else {
      var s := text + rest;
      AppendSlices(text, rest, 1);
      RemoveHandlesCons(s);
      RemoveHandlesKeepsText(text[1..], rest);
      assert text == [text[0]] + text[1..];
      ConsAppend(text[0], text[1..], RemoveHandles(rest), RemoveHandles(s), text);
    }
  }

  /** The handle pass deletes a longest handle at the start and goes on with what follows. */
  lemma RemoveHandlesDropsHandle(h: string, rest: string)
    requires IsHandle(h)
    requires forall m :: |h| < m <= |h + rest| ==> !IsHandle((h + rest)[..m])
    ensures RemoveHandles(h + rest) == RemoveHandles(rest)
  {
    var s := h + rest;
    HandleMatchIsLongestHandle(s);
    assert s[..|h|] == h;
    var n := HandleMatch(s);
    assert n == |h|;
    assert s[n..] == rest;
  }

  // ---------------------------------------------------------------------
  // strip_html, extract_word_from_mention, is_single_word
  // ---------------------------------------------------------------------

  /** `strip_html`: tags become spaces, entities are decoded, then the ends are stripped. */
  function StripHtml(text: string, unescape: Decoder): (r: string)
    ensures NoEdgeSpace(r)
    ensures IsStripOf(unescape(StripTags(text)), r)
  {
    Strip(unescape(StripTags(text)))
  }

  /** The decoder of text without entities. */
  function NoEntities(): Decoder {
    (x: string) => x
  }

  /** `html.unescape` only rewrites character references, which start with `&`: text without `&` comes back unchanged. */
  ghost predicate KeepsPlainText(unescape: Decoder) {
    forall x :: '&' !in x ==> unescape(x) == x
  }

  /** Tag removal adds no `&`. */
  lemma StripTagsAddsNoAmpersand(s: string)
    requires '&' !in s
    ensures '&' !in StripTags(s)
  {
    var r := StripTags(s);
    forall k | 0 <= k < |r| ensures r[k] != '&' {
      assert r[k] == ' ' || r[k] in s;
    }
  }

  /** A slice of a slice is a slice of the whole. */
  lemma SliceOfSlice(s: string, a: nat, b: nat, i: nat, j: nat)
    requires a <= b <= |s| && i <= j <= b - a
    ensures s[a..b][i..j] == s[a + i..a + j]
  {
    assert forall k :: 0 <= k < j - i ==> s[a..b][i..j][k] == s[a + i + k];
  }

  /** A slice of text without tags has no tag either. */
  lemma SliceOfTagFree(s: string, a: nat, b: nat)
    requires a <= b <= |s|
    requires !HasTag(s)
    ensures !HasTag(s[a..b])
  {
    if HasTag(s[a..b]) {
      var i, j :| 0 <= i < j <= |s[a..b]| && IsTag(s[a..b][i..j]);
      SliceOfSlice(s, a, b, i, j);
    }
  }

  /** Stripping keeps a middle slice of the text. */
  lemma StripIsSlice(s: string) returns (a: nat, b: nat)
    ensures a <= b <= |s| && Strip(s) == s[a..b]
  {
    a := LeadingSpace(s);
    b := |s| - TrailingSpace(s[a..]);
  }

  /** For text without `&`, `strip_html` of its own output changes nothing. */
  lemma StripHtmlIdempotent(text: string, unescape: Decoder)
    requires KeepsPlainText(unescape) && '&' !in text
    ensures StripHtml(StripHtml(text, unescape), unescape) == StripHtml(text, unescape)
  {
    var t := StripTags(text);
    StripTagsAddsNoAmpersand(text);
    assert unescape(t) == t;
    var r := StripHtml(text, unescape);
    StripTagsLeavesNoTag(text);
    var a, b := StripIsSlice(t);
    SliceOfTagFree(t, a, b);
    assert '&' !in r by {
      assert forall k :: 0 <= k < |r| ==> r[k] == t[a + k];
    }
    StripTagsOfTagFree(r);
    assert unescape(r) == r;
    StripIdempotent(r);
  }

  /** `w` is the first whitespace-delimited word of `s`. */
  ghost predicate IsFirstWordOf(s: string, w: string) {
    && IsToken(w)
    && exists a :: 0 <= a && a + |w| <= |s| && AllSpace(s[..a]) && s[a..a + |w|] == w
                   && (a + |w| == |s| || IsSpace(s[a + |w|]))
  }

  /** Text without any characters has no first word. */
  lemma FirstWordOfEmpty(w: string)
    ensures !IsFirstWordOf([], w)
  {
  }

  /** Only whitespace makes `AllSpace`, so leading whitespace does not change it. */
  lemma AllSpaceAfterSpace(s: string)
    requires s != [] && IsSpace(s[0])
    ensures AllSpace(s) <==> AllSpace(s[1..])
  {
    if AllSpace(s[1..]) {
      forall k | 0 <= k < |s| ensures IsSpace(s[k]) {
        if k > 0 { assert s[k] == s[1..][k - 1]; }
      }
    }
  }

  /** A first word after a leading whitespace character is the first word of the rest. */
  lemma FirstWordAfterSpaceOnly(s: string, w: string)
    requires s != [] && IsSpace(s[0])
    requires IsFirstWordOf(s, w)
    ensures IsFirstWordOf(s[1..], w)
  {
    var a :| 0 <= a && a + |w| <= |s| && AllSpace(s[..a]) && s[a..a + |w|] == w
             && (a + |w| == |s| || IsSpace(s[a + |w|]));
    assert s[a] == w[0];
    assert 0 < a;
    var t := s[1..];
    var head := t[..a - 1];
    forall k | 0 <= k < |head| ensures IsSpace(head[k]) {
      assert head[k] == s[..a][k + 1];
    }
    SliceOfSlice(s, 1, |s|, a - 1, a - 1 + |w|);
    if a + |w| < |s| {
      assert t[a - 1 + |w|] == s[a + |w|];
    }
    assert AllSpace(t[..a - 1]) && t[a - 1..a - 1 + |w|] == w;
  }

  /** The first word of the rest is the first word after a leading whitespace character. */
  lemma FirstWordBeforeSpace(s: string, w: string)
    requires s != [] && IsSpace(s[0])
    requires IsFirstWordOf(s[1..], w)
    ensures IsFirstWordOf(s, w)
  {
    var t := s[1..];
    var a :| 0 <= a && a + |w| <= |t| && AllSpace(t[..a]) && t[a..a + |w|] == w
             && (a + |w| == |t| || IsSpace(t[a + |w|]));
    var head := s[..a + 1];
    forall k | 0 <= k < |head| ensures IsSpace(head[k]) {
      if k > 0 { assert head[k] == t[..a][k - 1]; }
    }
    SliceOfSlice(s, 1, |s|, a, a + |w|);
    if a + |w| < |t| {
      assert s[a + 1 + |w|] == t[a + |w|];
    }
    assert AllSpace(s[..a + 1]) && s[a + 1..a + 1 + |w|] == w;
  }

  /** A leading whitespace character does not change the first word. */
  lemma FirstWordAfterSpace(s: string, w: string)
    requires s != [] && IsSpace(s[0])
    ensures IsFirstWordOf(s, w) <==> IsFirstWordOf(s[1..], w)
  {
    if IsFirstWordOf(s, w) {
      FirstWordAfterSpaceOnly(s, w);
    }
    if IsFirstWordOf(s[1..], w) {
      FirstWordBeforeSpace(s, w);
    }
  }

  /** A run of non-whitespace ended by whitespace or by the end of the text is the whole prefix `WordLength` measures. */
  lemma WordLengthUnique(s: string, m: nat)
    requires m <= |s| && (m == |s| || IsSpace(s[m]))
    requires forall k :: 0 <= k < m ==> !IsSpace(s[k])
    ensures WordLength(s) == m
  {
  }

  /** When the text starts with a word, only that word is first. */
  lemma FirstWordAtStartOnly(s: string, w: string)
    requires s != [] && !IsSpace(s[0])
    requires IsFirstWordOf(s, w)
    ensures w == s[..WordLength(s)]
  {
    var a :| 0 <= a && a + |w| <= |s| && AllSpace(s[..a]) && s[a..a + |w|] == w
             && (a + |w| == |s| || IsSpace(s[a + |w|]));
    assert a == 0;
    assert w == s[..|w|];
    assert forall k :: 0 <= k < |w| ==> !IsSpace(s[k]) by {
      assert forall k :: 0 <= k < |w| ==> s[k] == w[k];
    }
    WordLengthUnique(s, |w|);
  }

  /** Text that starts with a word character has that word first. */
  lemma FirstWordAtStart(s: string, w: string)
    requires s != [] && !IsSpace(s[0])
    ensures IsFirstWordOf(s, w) <==> w == s[..WordLength(s)]
  {
    if IsFirstWordOf(s, w) {
      FirstWordAtStartOnly(s, w);
    }
    if w == s[..WordLength(s)] {
      assert s[..0] == [];
      assert s[0..0 + |w|] == w;
    }
  }

  /** The first word `split()` returns is the first whitespace-delimited word, and no other token is. */
  lemma {:induction false} SplitFirstWord(s: string, w: string)
    ensures IsFirstWordOf(s, w) <==> Split(s) != [] && Split(s)[0] == w
    decreases |s|
  {
    if s == [] {
      FirstWordOfEmpty(w);
    } else if IsSpace(s[0]) {
      SplitFirstWord(s[1..], w);
      AllSpaceAfterSpace(s);
      FirstWordAfterSpace(s, w);
    } else {
      FirstWordAtStart(s, w);
    }
  }

  /**
   * `extract_word_from_mention`: the first word left after tags and handles
   * are removed. The source returns `words[0]` both when exactly one word is
   * left and when several are.
   */
  function ExtractWordFromMention(content: string, unescape: Decoder): (r: Option<string>)
    ensures r.None? <==> AllSpace(RemoveHandles(StripHtml(content, unescape)))
    ensures r.Some? ==> IsFirstWordOf(RemoveHandles(StripHtml(content, unescape)), r.value)
  {
    var text := RemoveHandles(StripHtml(content, unescape));
    var words := Split(text);
    SplitWords(text);
    if |words| == 1 then
      SplitFirstWord(text, words[0]);
      Some(words[0])
    else if |words| > 0 then
      SplitFirstWord(text, words[0]);
      Some(words[0])
    else None
  }

  /** Whatever follows the first word after whitespace does not change the extracted word. */
  lemma ExtractIgnoresLaterWords(text: string, rest: string)
    requires rest == [] || IsSpace(rest[0])
    requires !AllSpace(text)
    ensures Split(text) != [] && Split(text + rest) != [] && Split(text + rest)[0] == Split(text)[0]
  {
    SplitWords(text);
    SplitAppend(text, rest);
  }

  /** Text without `<` has no tag. */
  lemma NoAngleNoTag(s: string)
    requires '<' !in s
    ensures !HasTag(s)
  {
  }

  /** Plain text without tags, entities or edge whitespace passes `strip_html` unchanged. */
  lemma StripHtmlOfPlainText(text: string, unescape: Decoder)
    requires KeepsPlainText(unescape)
    requires '<' !in text && '&' !in text && NoEdgeSpace(text)
    ensures StripHtml(text, unescape) == text
  {
    NoAngleNoTag(text);
    StripTagsOfTagFree(text);
    assert unescape(text) == text;
    StripIdempotent(text);
  }

  /** Step of the "@bot hello" example: the handle match is "@bot", four characters. */
  lemma HandleOfBot()
    ensures HandleMatch("@bot hello") == 4
  {
    assert WordRun(" hello") == 0;
    assert WordRun("bot hello") == 3 by {
      assert "bot hello"[1..] == "ot hello";
      assert "ot hello"[1..] == "t hello";
      assert "t hello"[1..] == " hello";
    }
    assert "@bot hello"[1..] == "bot hello";
    assert "@bot hello"[4..] == " hello";
  }

  /** A handle at the start is deleted and the pass goes on after it. */
  lemma RemoveHandlesAfterMatch(s: string, rest: string)
    requires HandleMatch(s) > 0 && s[HandleMatch(s)..] == rest
    ensures RemoveHandles(s) == RemoveHandles(rest)
  {
  }

  /** Step of the "@bot hello" example: " hello" holds no handle and is kept. */
  lemma RemoveHandlesOfHello()
    ensures RemoveHandles(" hello") == " hello"
  {
    RemoveHandlesWithoutAt(" hello");
  }

  /** Step of the "@bot hello" example: removing handles leaves " hello". */
  lemma RemoveHandleOfBot()
    ensures RemoveHandles("@bot hello") == " hello"
  {
    HandleOfBot();
    assert "@bot hello"[4..] == " hello";
    RemoveHandlesAfterMatch("@bot hello", " hello");
    RemoveHandlesOfHello();
  }

  /** Step of the "@bot hello" example: " hello" splits into the one word "hello". */
  lemma SplitOfHello()
    ensures Split(" hello") == ["hello"]
  {
    assert " hello"[1..] == "hello";
    WordLengthUnique("hello", 5);
    assert "hello"[..5] == "hello";
    assert "hello"[5..] == [];
  }

  /** "@bot hello" asks for "hello". */
  lemma ExampleMentionOneWord()
    ensures ExtractWordFromMention("@bot hello", NoEntities()) == Some("hello")
  {
    StripHtmlOfPlainText("@bot hello", NoEntities());
    RemoveHandleOfBot();
    SplitOfHello();
  }

  /** Step of the "@bot" example: the handle match is the whole text. */
  lemma HandleOfBotAlone()
    ensures HandleMatch("@bot") == 4
  {
    assert WordRun("bot") == 3 by {
      assert "bot"[1..] == "ot";
      assert "ot"[1..] == "t";
      assert "t"[1..] == [];
    }
    assert "@bot"[1..] == "bot";
  }

  /** A mention that is only the handle "@bot" asks for nothing. */
  lemma ExampleMentionOnlyHandle()
    ensures ExtractWordFromMention("@bot", NoEntities()) == None
  {
    StripHtmlOfPlainText("@bot", NoEntities());
    HandleOfBotAlone();
    assert "@bot"[4..] == [];
    assert RemoveHandles("@bot") == [];
  }

  /** `is_single_word`: the stripped text is exactly one word. */
  function IsSingleWord(content: string, unescape: Decoder): (b: bool)
    ensures b <==> IsToken(StripHtml(content, unescape))
  {
    SingleWordIsWholeText(StripHtml(content, unescape));
    |Split(StripHtml(content, unescape))| == 1
  }

  /** The word the bot scores for a single-word post is the whole stripped text, and `strip()` again changes nothing. */
  lemma SingleWordPostWord(content: string, unescape: Decoder)
    requires IsSingleWord(content, unescape)
    ensures Strip(StripHtml(content, unescape)) == StripHtml(content, unescape)
    ensures Split(StripHtml(content, unescape)) == [StripHtml(content, unescape)]
  {
    var t := StripHtml(content, unescape);
    StripIdempotent(t);
    SingleWordIsWholeText(t);
  }

  // ---------------------------------------------------------------------
  // format_response
  // ---------------------------------------------------------------------

  /** The decimal digit for `d`. */
  function DigitChar(d: nat): (c: char)
    requires d < 10
    ensures '0' <= c <= '9'
  {
    (48 + d) as char
  }

  predicate IsDigits(s: string) {
    forall k :: 0 <= k < |s| ==> '0' <= s[k] <= '9'
  }

  /** The number a string of decimal digits denotes. */
  function DecimalValue(s: string): nat
    requires IsDigits(s)
  {
    if s == [] then 0 else 10 * DecimalValue(s[..|s| - 1]) + (s[|s| - 1] as int - 48)
  }

  /** `str(n)` for a non-negative integer: its decimal digits, without leading zeros. */
  function NatToString(n: nat): (s: string)
    ensures |s| > 0 && IsDigits(s)
    ensures s[0] == '0' ==> n == 0
    decreases n
  {
    if n < 10 then [DigitChar(n)] else NatToString(n / 10) + [DigitChar(n % 10)]
  }

  /** Reading the digits back gives the number. */
  lemma {:induction false} NatToStringRoundTrip(n: nat)
    ensures DecimalValue(NatToString(n)) == n
    decreases n
  {
    if n >= 10 {
      NatToStringRoundTrip(n / 10);
      var s := NatToString(n);
      assert s[..|s| - 1] == NatToString(n / 10);
    }
  }

  /** Different numbers are written differently. */
  lemma NatToStringInjective(m: nat, n: nat)
    requires NatToString(m) == NatToString(n)
    ensures m == n
  {
    NatToStringRoundTrip(m);
    NatToStringRoundTrip(n);
  }

  /** The name of the game, which every reply says. */
  const GameName: string := "Scrabble"
  /** The amount for exactly one point. */
  const Singular: string := "1 " + GameName + "-Punkt"
  /** What follows the number of points otherwise. */
  const PluralSuffix: string := " " + GameName + "-Punkte"

  /** The amount in the reply: singular for exactly one point, plural otherwise. */
  function Amount(points: nat): (s: string)
  {
    if points == 1 then Singular else NatToString(points) + PluralSuffix
  }

  /** The singular form is used exactly for one point. */
  lemma AmountSingular(points: nat)
    ensures Amount(points)[|Amount(points)| - 1] == 't' <==> points == 1
  {
  }

  /** The amount names the number of points: different scores read differently. */
  lemma AmountInjective(p: nat, q: nat)
    requires Amount(p) == Amount(q)
    ensures p == q
  {
    if p != 1 && q != 1 {
      var s := Amount(p);
      assert NatToString(p) == s[..|s| - |PluralSuffix|];
      assert NatToString(q) == s[..|s| - |PluralSuffix|];
      NatToStringInjective(p, q);
    } else if p == 1 && q != 1 {
      AmountSingular(q);
    } else if q == 1 && p != 1 {
      AmountSingular(p);
    }
  }

  /** The reply sentence around the upper-cased word, the amount and the language name. */
  function Sentence(word: string, amount: string, name: string): string {
    "Das Wort \"" + word + "\" ist " + amount + " wert (" + name + ")."
  }

  /** `format_response`: the German reply with the upper-cased word, the points and the language name. */
  function FormatResponse(word: string, hint: Option<string>, detect: Detector): (reply: string)
  {
    var r := Points(word, hint, detect);
    Sentence(Upper(word), Amount(r.0), GetLanguageName(r.1))
  }

  /**
   * The reply reports the score of the upper-cased word in the table of the
   * resolved language, and names that language in German.
   */
  lemma FormatResponseReports(word: string, hint: Option<string>, detect: Detector)
    ensures var lang := ResolveLanguage(word, hint, detect);
      FormatResponse(word, hint, detect)
      == Sentence(Upper(word), Amount(Points(word, hint, detect).0), LanguageName(lang))
  {
    ScoredLanguageIsNamed(ResolveLanguage(word, hint, detect));
  }

  /** `t` occurs in `s` at position `i`. */
  predicate OccursAt(s: string, t: string, i: int) {
    0 <= i && i + |t| <= |s| && s[i..i + |t|] == t
  }

  /** `t` occurs in `s`. */
  ghost predicate Contains(s: string, t: string) {
    exists i :: OccursAt(s, t, i)
  }

  /** What occurs in a part occurs in the whole. */
  lemma ContainsTransitive(s: string, t: string, u: string)
    requires Contains(s, t) && Contains(t, u)
    ensures Contains(s, u)
  {
    var i :| OccursAt(s, t, i);
    var j :| OccursAt(t, u, j);
    SliceOfSlice(s, i, i + |t|, j, j + |u|);
    assert OccursAt(s, u, i + j);
  }

  /** The reply sentence holds the word, the amount and the language name. */
  lemma ReplyParts(word: string, amount: string, name: string)
    ensures Contains(Sentence(word, amount, name), word)
    ensures Contains(Sentence(word, amount, name), amount)
    ensures Contains(Sentence(word, amount, name), name)
  {
    var reply := Sentence(word, amount, name);
    var mid := "Das Wort \"" + word + "\" ist ";
    assert reply == mid + amount + " wert (" + name + ").";
    assert OccursAt(reply, word, 10);
    assert OccursAt(reply, amount, |mid|);
    assert OccursAt(reply, name, |mid| + |amount| + 7);
  }

  /** `t` occurs in `x + t + y` right after `x`. */
  lemma OccursBetween(x: string, t: string, y: string)
    ensures OccursAt(x + t + y, t, |x|)
  {
    assert (x + t + y)[|x|..|x| + |t|] == t;
  }

  /** Every amount says "Scrabble". */
  lemma AmountSaysScrabble(points: nat)
    ensures Contains(Amount(points), GameName)
  {
    if points == 1 {
      OccursBetween("1 ", GameName, "-Punkt");
    } else {
      var digits := NatToString(points);
      assert Amount(points) == (digits + " ") + GameName + "-Punkte";
      OccursBetween(digits + " ", GameName, "-Punkte");
    }
  }

  /** The reply quotes the upper-cased word, says "Scrabble" and names the language the points were counted in. */
  lemma ReplyMentions(word: string, hint: Option<string>, detect: Detector)
    ensures Contains(FormatResponse(word, hint, detect), Upper(word))
    ensures Contains(FormatResponse(word, hint, detect), GameName)
    ensures Contains(FormatResponse(word, hint, detect), LanguageName(ResolveLanguage(word, hint, detect)))
  {
    var lang := ResolveLanguage(word, hint, detect);
    var amount := Amount(Points(word, hint, detect).0);
    FormatResponseReports(word, hint, detect);
    ReplyParts(Upper(word), amount, LanguageName(lang));
    AmountSaysScrabble(Points(word, hint, detect).0);
    ContainsTransitive(FormatResponse(word, hint, detect), amount, GameName);
  }

  /** The sentence determines its amount: two sentences with the same word and name but different amounts differ. */
  lemma SentenceDeterminesAmount(word: string, a1: string, a2: string, name: string)
    requires Sentence(word, a1, name) == Sentence(word, a2, name)
    ensures a1 == a2
  {
    var head := "Das Wort \"" + word + "\" ist ";
    var r1 := Sentence(word, a1, name);
    assert r1 == head + a1 + " wert (" + name + ").";
    assert Sentence(word, a2, name) == head + a2 + " wert (" + name + ").";
    assert |a1| == |a2|;
    assert a1 == r1[|head|..|head| + |a1|];
    assert a2 == r1[|head|..|head| + |a2|];
  }

  /**
   * The reply uses the singular sentence exactly when the word scores one
   * point; otherwise it states the number of points in the plural sentence.
   */
  lemma ReplySingularIffOnePoint(word: string, hint: Option<string>, detect: Detector)
    ensures var name := LanguageName(ResolveLanguage(word, hint, detect));
      FormatResponse(word, hint, detect) == Sentence(Upper(word), Singular, name)
      <==> Points(word, hint, detect).0 == 1
    ensures var name := LanguageName(ResolveLanguage(word, hint, detect));
      var points := Points(word, hint, detect).0;
      points != 1 ==>
        FormatResponse(word, hint, detect) == Sentence(Upper(word), NatToString(points) + PluralSuffix, name)
  {
    var name := LanguageName(ResolveLanguage(word, hint, detect));
    var points := Points(word, hint, detect).0;
    FormatResponseReports(word, hint, detect);
    if FormatResponse(word, hint, detect) == Sentence(Upper(word), Singular, name) {
      SentenceDeterminesAmount(Upper(word), Amount(points), Amount(1), name);
      AmountInjective(points, 1);
    }
  }

  /** Nine points read "9 Scrabble-Punkte". */
  lemma AmountNine()
    ensures Amount(9) == "9" + PluralSuffix
  {
    assert NatToString(9) == "9";
  }

  /** The reply, given the upper-cased word, the points and the language `calculate_points` settles on. */
  lemma FormatResponseOfParts(word: string, hint: Option<string>, detect: Detector, upper: string, points: nat, lang: Language)
    requires Upper(word) == upper
    requires Points(word, hint, detect).0 == points
    requires ResolveLanguage(word, hint, detect) == lang
    ensures FormatResponse(word, hint, detect) == Sentence(upper, Amount(points), LanguageName(lang))
  {
    FormatResponseReports(word, hint, detect);
  }

  /** The German reply for "Hallo" with the post language "de". */
  lemma ExampleReplyHallo(detect: Detector)
    ensures FormatResponse("Hallo", Some("de"), detect) == Sentence("HALLO", "9" + PluralSuffix, "Deutsch")
  {
    UpperHallo();
    ExampleHallo(detect);
    AmountNine();
    FormatResponseOfParts("Hallo", Some("de"), detect, "HALLO", 9, De);
  }
}
