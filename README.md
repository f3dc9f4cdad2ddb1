# Scrabble bot for Mastodon: a Dafny model

The bot watches two Mastodon streams: its own mentions, and the posts of the
account `bt_first_said`. It answers with the Scrabble value of a word, in
German (`Das Wort "HALLO" ist 9 Scrabble-Punkte wert (Deutsch).`). This
project models the bot's logic and proves properties of that model:

- **Scoring** (`scrabble.py`, module `Scrabble`):
  - the eleven letter tables;
  - the language names, the default language and the fallback map;
  - Cyrillic detection and `detect_language`, with the statistical detector left abstract;
  - `calculate_points`, a loop over the upper-cased word, proved against the specification function `WordScore`;
  - `get_language_name`.
- **Python string behaviour** (module `UnicodeText`):
  - `str.upper`, which may lengthen a string (`ß` becomes `SS`);
  - `str.isspace`;
  - the `\w` character class.
- **Text helpers** (`main.py`, module `BotText`):
  - `strip_html`: the tag pass `<[^>]+>` becomes an explicit scan, then entity decoding, which is a parameter, then `strip()`;
  - the `@handle` pass `@\w+(@[\w.]+)?`, with the same greedy, left-to-right matching as `re.sub`;
  - `str.split()`;
  - `extract_word_from_mention`, `is_single_word` and `format_response`.
- **The polling loop** (`main.py`, module `Polling`): the class `Bot` holds the two sets of processed ids and an outbox of every `status_reply` call.
  - The start-up fetch marks the existing statuses as processed.
  - One poll handles the new mentions, then the new posts of the monitored account.
  - Each poll is proved against the specification function `NewReplies`.

The statistical language detector is the parameter `detect: string -> Option<string>`. `None` stands for `LangDetectException`. The HTML entity decoder `html.unescape` is the parameter `unescape: string -> string`.

A language is the datatype `Scrabble.Language`, with one constructor for each key of `LETTER_POINTS`. So "every language `detect_language` returns has a table" holds by construction. `Code` and `ParseCode` translate between languages and their two-letter codes.

## Model

| member | source | states |
|---|---|---|
| Scrabble.LetterPoints | scrabble.py:9-117 | Definition of the eleven tables; stated by `AllTablesNonNegative`, `TurkishDuplicatesOverride` and the scoring examples |
| Scrabble.ParseCodeOfCode | scrabble.py:9-117 | Each of the eleven table keys is recognised as its own language, so codes and languages correspond one to one |
| Scrabble.TurkishDuplicatesOverride | scrabble.py:108-116 | In the Turkish table the repeated keys keep their later values: `Ş` is 7 and `J` is 10 |
| Scrabble.AllTablesNonNegative | scrabble.py:9-117 | No letter of any table is worth a negative number of points |
| Scrabble.LanguageFallback | scrabble.py:137-150 | A fallback exists only for codes without a table of their own |
| Scrabble.HasCyrillic | scrabble.py:153-155 | True exactly when some character lies in U+0400..U+04FF |
| Scrabble.DetectLanguage | scrabble.py:158-173 | Cyrillic text gives Russian. Otherwise the detector's answer is used if it has a table, else its fallback, else German; a detector failure also gives German |
| Scrabble.CyrillicIgnoresDetector | scrabble.py:160-162 | Text with a Cyrillic character is classified as Russian whatever the detector would say |
| Scrabble.ResolveLanguage | scrabble.py:183-187 | A supported hint is kept, an unsupported hint becomes German, and no hint means detection |
| Scrabble.CalculatePoints | scrabble.py:176-194 | The loop returns the resolved language's code and the sum of the table values of the upper-cased word's characters (0 for characters missing from the table). The total is never negative, and the pair is the one `Points` gives |
| Scrabble.Points | scrabble.py:176-194 | The points are non-negative and the language returned is always a key of the table |
| Scrabble.HintDecidesLanguage | scrabble.py:183-187 | With a supported hint the same code comes back; with any other hint (such as "xx") "de" comes back |
| Scrabble.WordScore | scrabble.py:189-194 | Definition of the sum of the letter values; stated by `WordScoreAppend`, `WordScoreNonNegative` and `WordScoreOutsideTable`, and met by `CalculatePoints` |
| Scrabble.WordScoreAppend | scrabble.py:189-194 | The score of a concatenation is the sum of the scores of its parts |
| Scrabble.WordScoreNonNegative | scrabble.py:189-194 | With non-negative letter values every word scores at least 0 |
| Scrabble.WordScoreOutsideTable | scrabble.py:192 | Characters missing from the table contribute 0 |
| Scrabble.ScoreOfConcatenation | scrabble.py:189-194 | With a language given, the points of `a + b` are the points of `a` plus those of `b` |
| Scrabble.ScoreIgnoresCase | scrabble.py:191 | With a language given, scoring the upper-cased word gives the same points and language as scoring the word; without one the detector sees different text and may answer differently |
| Scrabble.GetLanguageName | scrabble.py:197-199 | A known code gives its German name; any other code is returned unchanged |
| Scrabble.LanguageName | scrabble.py:120-132 | Definition of the German names; stated by `GetLanguageName` and `ScoredLanguageIsNamed` |
| Scrabble.ScoredLanguageIsNamed | scrabble.py:120-132 | Every scored language is reported by its German name, never by its bare code |
| Scrabble.ExampleHallo | tests/test_scrabble.py:23-27 | "Hallo" with "de" is worth 9 points in "de" |
| Scrabble.ExampleHello | tests/test_scrabble.py:29-33 | "hello" with "en" is worth 8 points in "en" |
| Scrabble.ExampleEmpty | tests/test_scrabble.py:48-51 | The empty word is worth 0 points |
| Scrabble.ExampleCaseInsensitive | tests/test_scrabble.py:53-58 | "HELLO" and "hello" score alike in English |
| UnicodeText.IsSpace | main.py:24 | Definition: the characters `str.isspace` accepts, used by `strip()` and `split()`; its properties are stated through `Strip` and `SplitWords` |
| UnicodeText.IsWordChar | main.py:31 | Definition: `\w` over the blocks the model covers; its use is stated by `HandleMatchIsLongestHandle` |
| UnicodeText.UpperChar | scrabble.py:191 | Each character upper-cases to one or two characters; the bound of two belongs to the model, since Python can produce three |
| UnicodeText.Upper | scrabble.py:191 | Upper-casing keeps every character and gives at most twice as many; the bound belongs to the model, since Python can triple a string |
| UnicodeText.UpperCharIsUpper | scrabble.py:191 | Every character produced by upper-casing is already upper case |
| UnicodeText.UpperAppend | scrabble.py:191 | Upper-casing distributes over concatenation |
| UnicodeText.UpperIdempotent | scrabble.py:191 | Upper-casing twice is upper-casing once |
| UnicodeText.UpperPointwise | scrabble.py:191 | A word of characters with one-character capitals is upper-cased character by character |
| BotText.StripTags | main.py:22 | Every output character is a space or a character of the input, and text not starting with `<` keeps its first character; what is replaced and what is kept is stated by `StripTagsReplacesTag` and `StripTagsKeepsChar` |
| BotText.StripTagsLeavesNoTag | main.py:22 | After the tag pass no stretch of the text matches `<[^>]+>` |
| BotText.StripTagsOfTagFree | main.py:22 | Text without a tag is left unchanged |
| BotText.StripTagsIdempotent | main.py:22 | A second tag pass changes nothing |
| BotText.StripTagsReplacesTag | main.py:22 | A leading tag is replaced by exactly one space |
| BotText.StripTagsKeepsText | main.py:22 | Leading text without `<` is kept as it is |
| BotText.StripTagsKeepsChar | main.py:22 | A first character that starts no tag, such as a `<` with no `>` after at least one other character, is copied and the pass goes on after it |
| BotText.Strip | main.py:24 | The result has no whitespace at either end and is the input minus whitespace at both ends |
| BotText.StripIdempotent | main.py:24 | Stripping text without edge whitespace changes nothing |
| BotText.StripHtml | main.py:20-24 | The result has no edge whitespace and is the decoded, tag-free text stripped at both ends |
| BotText.StripHtmlIdempotent | main.py:20-24 | For text without `&`, and a decoder that leaves text without `&` unchanged as `html.unescape` does, applying `strip_html` again to its output changes nothing |
| BotText.StripHtmlOfPlainText | main.py:20-24 | Text without `<`, `&` or edge whitespace passes unchanged, for any decoder that leaves text without `&` unchanged |
| BotText.Split | main.py:32 | Definition of `str.split()` with no argument; its properties are stated by `SplitWords`, `SplitAppend` and `SplitFirstWord` |
| BotText.SplitWords | main.py:32 | Every word is non-empty and free of whitespace; there are no words exactly when the text is all whitespace |
| BotText.SplitAppend | main.py:32 | Splitting at a whitespace boundary gives the words of the left part, then those of the right part |
| BotText.SingleWordIsWholeText | main.py:42-46 | Stripped text splits into exactly one word when it is one word, and that word is the whole text |
| BotText.HandleMatch | main.py:31 | A handle matches exactly at `@` followed by a word character, and a match ends before a word character can follow |
| BotText.HandleMatchIsLongestHandle | main.py:31 | The match is the longest prefix in the language of `@\w+(@[\w.]+)?`, defined separately by `IsHandle`: it is such a handle when not empty, and no longer prefix is one |
| BotText.RemoveHandles | main.py:31 | Removing handles never lengthens the text, and text not starting with a word character does not start with one afterwards; what is kept and what is deleted is stated by `RemoveHandlesKeepsChar` and `RemoveHandlesDropsHandle`, which together fix the result on every text |
| BotText.RemoveHandlesKeepsText | main.py:31 | Text without `@` is copied as it is, and the pass goes on with what follows it |
| BotText.RemoveHandlesDropsHandle | main.py:31 | A longest handle at the start is deleted, and the pass goes on with what follows it |
| BotText.RemoveHandlesKeepsChar | main.py:31 | A first character that starts no handle, such as an `@` followed by a space, punctuation or nothing, is copied and the pass goes on after it |
| BotText.RemoveHandlesLeavesNone | main.py:31 | After the pass no handle is left: deleting one never joins its neighbours into a new one |
| BotText.RemoveHandlesWithoutAt | main.py:31 | Text without `@` is unchanged |
| BotText.SplitFirstWord | main.py:32-38 | `words[0]` is the first whitespace-delimited token, and no other token is |
| BotText.ExtractWordFromMention | main.py:27-39 | None exactly when only whitespace is left after tags and handles are removed; otherwise the first token of that text |
| BotText.ExtractIgnoresLaterWords | main.py:32 | Appending further words after whitespace does not change the first word |
| BotText.ExampleMentionOneWord | main.py:27-39 | "@bot hello" asks for "hello" |
| BotText.ExampleMentionOnlyHandle | main.py:27-39 | "@bot" asks for nothing |
| BotText.IsSingleWord | main.py:42-46 | True exactly when the stripped text is one non-empty word without whitespace, so empty content gives false |
| BotText.SingleWordPostWord | main.py:126-127 | For a single-word post, `strip_html(content).strip()` is the stripped text itself and its only word |
| BotText.NatToString | main.py:56 | The decimal form of the points is a non-empty string of digits with no leading zero |
| BotText.NatToStringRoundTrip | main.py:56 | Reading the decimal digits of the point count back gives the count |
| BotText.AmountInjective | main.py:54-56 | Different point counts are written differently |
| BotText.Amount | main.py:54-56 | Definition: "1 Scrabble-Punkt" for one point, else the number and "Scrabble-Punkte"; stated by `ReplySingularIffOnePoint`, `AmountInjective` and `AmountNine` |
| BotText.FormatResponse | main.py:49-56 | Definition of `format_response`; what the reply says is stated by `FormatResponseReports`, `ReplyMentions` and `ReplySingularIffOnePoint` |
| BotText.FormatResponseReports | main.py:49-56 | The reply states the upper-cased word, the points of `calculate_points` and the German name of the language it resolved |
| BotText.ReplyMentions | main.py:49-56 | The reply contains the upper-cased word, the game's name "Scrabble" and the language name |
| BotText.ReplySingularIffOnePoint | main.py:54-56 | The singular sentence is used exactly when the word scores one point; otherwise the plural sentence carries the number |
| BotText.AmountNine | main.py:56 | Nine points are written "9 Scrabble-Punkte" |
| BotText.ExampleReplyHallo | main.py:49-56 | "Hallo" with "de" gives the sentence with "HALLO", "9 Scrabble-Punkte" and "Deutsch" |
| Polling.IdsMembers | main.py:82-87 | An id is recorded exactly when some status of the batch has it |
| Polling.MentionReply | main.py:103-112 | A reply to a mention answers that mention, as a mention reply, with its visibility |
| Polling.PostReply | main.py:124-134 | A reply to a monitored post answers that post, as a post reply, with its visibility |
| Polling.Respond | main.py:103-129 | Any reply answers the given status, from its source, with its visibility |
| Polling.MentionAnsweredIffWord | main.py:103-107 | A new mention is answered exactly when a word is left in it, and the reply scores its first word in the post's language |
| Polling.PostAnsweredIffSingleWord | main.py:126-129 | A new monitored post is answered exactly when its stripped text is one word, and that text is scored |
| Polling.ResponderAnswers | main.py:108-112 | The responders answer the status they are given, from their own source |
| Polling.NewReplies | main.py:95-113 | Definition of one pass over a batch; stated by `NewRepliesAnswerNewStatuses`, `SeenStatusesGetNoReply` and `NewRepliesAppend`, and met by `Bot.PollMentions` and `Bot.PollPosts` |
| Polling.NewRepliesAnswerNewStatuses | main.py:95-113 | Every reply of a pass answers a status of the batch that had not been seen, and no status is answered twice |
| Polling.SeenStatusesGetNoReply | main.py:99-100 | Statuses already processed get no reply, so replaying a processed batch sends nothing |
| Polling.NewRepliesAppend | main.py:95-113 | Two batches processed one after the other send what the two processed as one batch send |
| Polling.ConsistentAfterAnswer | main.py:99-102 | Recording an unseen id and then sending its answer keeps every reply tied to a processed id and answered once |
| Polling.Bot.constructor | main.py:77-87 | At start-up the ids of the existing mentions and posts are recorded and nothing has been sent |
| Polling.Bot.HandleMention | main.py:96-113 | An unseen mention's id is recorded before its reply is sent; a seen one changes nothing |
| Polling.Bot.HandlePost | main.py:118-135 | An unseen post's id is recorded before its reply is sent; a seen one changes nothing |
| Polling.Bot.PollMentions | main.py:94-113 | The processed mentions grow by the batch's ids, and the outbox grows by exactly the replies `NewReplies` specifies |
| Polling.Bot.PollPosts | main.py:116-135 | The processed posts grow by the batch's ids, and the outbox grows by exactly the replies `NewReplies` specifies |
| Polling.Bot.Poll | main.py:91-135 | One round handles the mentions first and then the posts; both sets only grow, and no status is answered twice from the same stream |

## Left out

- The statistical detector (`langdetect.detect`, scrabble.py:3, 165) is a foreign library. It is the parameter `detect`, which may return any code or fail. `DetectorFactory.seed` has no counterpart.
- `html.unescape` (main.py:23) is the parameter `unescape`. Nothing is claimed about the text after decoding beyond `strip()`.
- `UnicodeText.UpperChar` and `UnicodeText.Upper`: cover ASCII, Latin-1, Latin Extended-A and the Cyrillic block U+0400..U+04FF, including the two-character capitals `ß`→`SS` and `ŉ`→`ʼN`. Every other character is left unchanged, but Python's `str.upper` also changes Latin and Cyrillic letters outside these blocks, and some of them become letters the tables score. Examples: the ligatures `ﬁ`→`FI`, `ﬀ`→`FF` and `ﬃ`→`FFI`, `ǰ`→`J` plus a combining caron, and U+1C80 (a Cyrillic variant of `в`)→`В`. For such words `calculate_points` gives more points than the model; `ﬁ` in German is worth F+I = 5 points in Python and 0 in the model. Python can also triple a string (`ﬃ`, U+0390), so the model's bound of at most two characters per character does not hold of Python.
- `UnicodeText.IsWordChar`: `\w` covers ASCII letters, digits and `_`, and the letters of Latin-1, Latin Extended-A and the Cyrillic block. Python's full Unicode `\w` (other scripts, other digits) is not modelled.
- Mastodon I/O is not modelled:
  - the client and authentication, and the account search that fails with an error message (main.py:60-75);
  - `load_dotenv`, `print` and `time.sleep`;
  - the `while True` loop and the `except Exception` that swallows a failed fetch or reply (main.py:91-140).
  - Each fetch is a batch parameter, and each `status_reply` call is a record in the outbox. A reply that fails in the source is still recorded in the outbox. In the source, an exception also abandons the rest of that round (the remaining statuses and, for the mentions, the posts fetch), whose ids stay unprocessed until the next round; the model handles each batch to its end.
- The limits `limit=40`, `limit=20` and `limit=10` belong to the server's answer. The batches are arbitrary sequences.
- Polling.Bot.Poll: models one round of the loop. The infinite repetition is not modelled.
- Polling.Bot.Poll: as in the source, the mentions and the monitored account's posts are de-duplicated in two separate sets, so a status that is both a new mention and a new post of the monitored account gets one reply from each stream; no promise is made across the two streams.
- Functions and classes that the tests import but the source does not define are not part of this model:
  - `ScrabbleBot`, `RateLimiter`, `is_valid_word`, `has_supported_characters` and `is_unsupported_language`;
  - the message getters;
  - the tuple-returning `extract_word`;
  - the demo scripts test_bt_reply.py and test_unsupported_languages.py.
- Two test expectations disagree with the code, and neither is used as a property:
  - tests/test_main.py:17-22 expects "English" in the reply for "en", but the code names the language "Englisch" (scrabble.py:122);
  - tests/test_scrabble.py:122-134 passes a `localized=` keyword that `get_language_name` does not accept.
