/**
 * The polling loop of the bot: which statuses it answers and how it
 * remembers the ones it has seen. The Mastodon client is replaced by the
 * batches of statuses each poll returns, and every `status_reply` call is
 * recorded in an outbox.
 */
module Polling {
  import opened Wrappers
  import opened Scrabble
  import opened BotText

  /** A status as the API returns it: its id, HTML content, optional language and visibility. */
  datatype Status = Status(id: string, content: string, language: Option<string>, visibility: string)

  /** Where a status came from: a mention of the bot, or a post of the monitored account. */
  datatype Source = Mention | Monitored

  /** One `status_reply` call: the source and id of the status answered, the text, the visibility. */
  datatype Reply = Reply(source: Source, statusId: string, text: string, visibility: string)

  /** The ids of a batch of statuses. */
  function Ids(batch: seq<Status>): set<string> {
    if batch == [] then {} else {batch[0].id} + Ids(batch[1..])
  }

  /** An id is among the ids of a batch exactly when some status of the batch has it. */
  lemma {:induction false} IdsMembers(batch: seq<Status>, id: string)
    ensures id in Ids(batch) <==> exists k :: 0 <= k < |batch| && batch[k].id == id
    decreases |batch|
  {
    if batch != [] {
      var rest := batch[1..];
      IdsMembers(rest, id);
      if id in Ids(rest) {
        var k :| 0 <= k < |rest| && rest[k].id == id;
        assert batch[k + 1] == rest[k];
      }
      if exists k :: 0 <= k < |batch| && batch[k].id == id {
        var k :| 0 <= k < |batch| && batch[k].id == id;
        if k > 0 { assert rest[k - 1] == batch[k]; }
      }
    }
  }

  /** The reply to a new mention: the first word left after tags and handles are removed is scored. */
  function MentionReply(status: Status, unescape: Decoder, detect: Detector): (r: Option<Reply>)
    ensures r.Some? ==> r.value.source == Mention && r.value.statusId == status.id
    ensures r.Some? ==> r.value.visibility == status.visibility
  {
    match ExtractWordFromMention(status.content, unescape)
    case None => None
    case Some(word) => Some(Reply(Mention, status.id, FormatResponse(word, status.language, detect), status.visibility))
  }

  /** The reply to a new post of the monitored account: a post of exactly one word is scored. */
  function PostReply(status: Status, unescape: Decoder, detect: Detector): (r: Option<Reply>)
    ensures r.Some? ==> r.value.source == Monitored && r.value.statusId == status.id
    ensures r.Some? ==> r.value.visibility == status.visibility
  {
    if IsSingleWord(status.content, unescape) then
      var word := Strip(StripHtml(status.content, unescape));
      Some(Reply(Monitored, status.id, FormatResponse(word, status.language, detect), status.visibility))
    else None
  }

  /** The reply to a status not seen before, from either source. */
  function Respond(source: Source, status: Status, unescape: Decoder, detect: Detector): (r: Option<Reply>)
    ensures r.Some? ==> r.value.source == source && r.value.statusId == status.id
    ensures r.Some? ==> r.value.visibility == status.visibility
  {
    match source
    case Mention => MentionReply(status, unescape, detect)
    case Monitored => PostReply(status, unescape, detect)
  }

  /** A new mention is answered exactly when a word is left in it, and the reply scores its first word in the post's language. */
  lemma MentionAnsweredIffWord(status: Status, unescape: Decoder, detect: Detector)
    ensures MentionReply(status, unescape, detect).Some?
        <==> !AllSpace(RemoveHandles(StripHtml(status.content, unescape)))
    ensures MentionReply(status, unescape, detect).Some? ==>
      && Split(RemoveHandles(StripHtml(status.content, unescape))) != []
      && var word := Split(RemoveHandles(StripHtml(status.content, unescape)))[0];
      && IsFirstWordOf(RemoveHandles(StripHtml(status.content, unescape)), word)
      && MentionReply(status, unescape, detect).value.text == FormatResponse(word, status.language, detect)
  {
    var text := RemoveHandles(StripHtml(status.content, unescape));
    SplitWords(text);
    if !AllSpace(text) {
      SplitFirstWord(text, Split(text)[0]);
    }
  }

  /** A new post of the monitored account is answered exactly when its text is one word, and that word is scored. */
  lemma PostAnsweredIffSingleWord(status: Status, unescape: Decoder, detect: Detector)
    ensures PostReply(status, unescape, detect).Some? <==> IsToken(StripHtml(status.content, unescape))
    ensures PostReply(status, unescape, detect).Some? ==>
      PostReply(status, unescape, detect).value.text
      == FormatResponse(StripHtml(status.content, unescape), status.language, detect)
  {
    StripIdempotent(StripHtml(status.content, unescape));
  }

  /** What the bot answers to a status it has not seen before. */
  type Responder = Status -> Option<Reply>

  /** The responder for one source, with the decoder and detector fixed. */
  function ResponderFor(source: Source, unescape: Decoder, detect: Detector): Responder {
    (status: Status) => Respond(source, status, unescape, detect)
  }

  /** Every reply of `respond` answers the status it was given, from `source`. */
  ghost predicate AnswersFrom(respond: Responder, source: Source) {
    forall status: Status {:trigger respond(status)} :: respond(status).Some? ==>
      respond(status).value.source == source && respond(status).value.statusId == status.id
  }

  /** The bot's responders answer the status they are given. */
  lemma ResponderAnswers(source: Source, unescape: Decoder, detect: Detector)
    ensures AnswersFrom(ResponderFor(source, unescape, detect), source)
  {
    forall status: Status ensures var r := ResponderFor(source, unescape, detect)(status);
      r.Some? ==> r.value.source == source && r.value.statusId == status.id
    {
      assert ResponderFor(source, unescape, detect)(status) == Respond(source, status, unescape, detect);
    }
  }

  /** The replies sent for one answer: none or one. */
  function Sent(reply: Option<Reply>): seq<Reply> {
    match reply
    case None => []
    case Some(r) => [r]
  }

  /** The replies one pass over `batch` sends, given the ids already `seen`: each new id once, in batch order. */
  function NewReplies(seen: set<string>, batch: seq<Status>, respond: Responder): seq<Reply>
    decreases |batch|
  {
    if batch == [] then []
    else
      var status := batch[0];
      if status.id in seen then NewReplies(seen, batch[1..], respond)
      else
        Sent(respond(status)) + NewReplies(seen + {status.id}, batch[1..], respond)
  }

  /**
   * No two replies answer the same status from the same stream. The two
   * streams are de-duplicated separately, so a status may get one reply from each.
   */
  ghost predicate AtMostOnce(replies: seq<Reply>) {
    forall i, j :: 0 <= i < j < |replies| ==>
      replies[i].source != replies[j].source || replies[i].statusId != replies[j].statusId
  }

  /** Every reply of a pass answers a new status of the batch, from the given source, and each at most once. */
  lemma {:induction false} NewRepliesAnswerNewStatuses(seen: set<string>, batch: seq<Status>, respond: Responder, source: Source)
    requires AnswersFrom(respond, source)
    ensures forall r :: r in NewReplies(seen, batch, respond) ==>
      r.source == source && r.statusId !in seen && r.statusId in Ids(batch)
    ensures AtMostOnce(NewReplies(seen, batch, respond))
    decreases |batch|
  {
    if batch != [] {
      var status := batch[0];
      var rest := batch[1..];
      assert forall k :: 0 <= k < |rest| ==> rest[k] == batch[k + 1];
      if status.id in seen {
        NewRepliesAnswerNewStatuses(seen, rest, respond, source);
      } else {
        NewRepliesAnswerNewStatuses(seen + {status.id}, rest, respond, source);
      }
    }
  }

  /** Statuses already seen are never answered: a batch replayed after it was processed sends nothing. */
  lemma {:induction false} SeenStatusesGetNoReply(seen: set<string>, batch: seq<Status>, respond: Responder)
    requires Ids(batch) <= seen
    ensures NewReplies(seen, batch, respond) == []
    decreases |batch|
  {
    if batch != [] {
      var rest := batch[1..];
      assert forall k :: 0 <= k < |rest| ==> rest[k] == batch[k + 1];
      SeenStatusesGetNoReply(seen, rest, respond);
    }
  }

  /** Processing two batches one after the other sends what processing them as one batch sends. */
  lemma {:induction false} NewRepliesAppend(seen: set<string>, a: seq<Status>, b: seq<Status>, respond: Responder)
    ensures NewReplies(seen, a + b, respond) == NewReplies(seen, a, respond) + NewReplies(seen + Ids(a), b, respond)
    decreases |a|
  {
    if a == [] {
      assert a + b == b;
      assert seen + Ids(a) == seen;
    } else {
      var status := a[0];
      var seen' := seen + {status.id};
      AppendSlices(a, b, 1);
      NewRepliesCons(seen, a + b, respond);
      NewRepliesCons(seen, a, respond);
      NewRepliesAppend(seen', a[1..], b, respond);
      assert seen' + Ids(a[1..]) == seen + Ids(a);
      AppendAssociative(StepReplies(seen, status, respond), NewReplies(seen', a[1..], respond),
                        NewReplies(seen + Ids(a), b, respond));
    }
  }

  /** Concatenation of replies is associative. */
  lemma AppendAssociative(a: seq<Reply>, b: seq<Reply>, c: seq<Reply>)
    ensures (a + b) + c == a + (b + c)
  {
  }

  /** The replies for one status of a pass: none for a status already seen. */
  function StepReplies(seen: set<string>, status: Status, respond: Responder): seq<Reply> {
    if status.id in seen then [] else Sent(respond(status))
  }

  /** The first status of a batch, then the rest with its id recorded. */
  lemma NewRepliesCons(seen: set<string>, batch: seq<Status>, respond: Responder)
    requires batch != []
    ensures NewReplies(seen, batch, respond)
         == StepReplies(seen, batch[0], respond) + NewReplies(seen + {batch[0].id}, batch[1..], respond)
  {
    if batch[0].id in seen {
      assert seen + {batch[0].id} == seen;
    }
  }

  /** One step of a pass, at position `i` of the batch. */
  lemma NewRepliesStep(seen: set<string>, batch: seq<Status>, i: nat, respond: Responder)
    requires i < |batch|
    ensures Ids(batch[i..]) == {batch[i].id} + Ids(batch[i + 1..])
    ensures NewReplies(seen, batch[i..], respond)
         == StepReplies(seen, batch[i], respond) + NewReplies(seen + {batch[i].id}, batch[i + 1..], respond)
  {
    assert batch[i..][0] == batch[i] && batch[i..][1..] == batch[i + 1..];
    if batch[i].id in seen {
      assert seen + {batch[i].id} == seen;
    }
  }

  /** Every reply answers a status recorded as processed for its source, and no status is answered twice from the same stream. */
  ghost predicate Consistent(outbox: seq<Reply>, mentions: set<string>, posts: set<string>) {
    && (forall r :: r in outbox && r.source == Mention ==> r.statusId in mentions)
    && (forall r :: r in outbox && r.source == Monitored ==> r.statusId in posts)
    && AtMostOnce(outbox)
  }

  /** Recording a new status and sending its answer keeps the outbox consistent. */
  lemma ConsistentAfterAnswer(outbox: seq<Reply>, mentions: set<string>, posts: set<string>, source: Source, id: string, reply: Option<Reply>)
    requires Consistent(outbox, mentions, posts)
    requires id !in (if source == Mention then mentions else posts)
    requires reply.Some? ==> reply.value.source == source && reply.value.statusId == id
    ensures source == Mention ==> Consistent(outbox + Sent(reply), mentions + {id}, posts)
    ensures source == Monitored ==> Consistent(outbox + Sent(reply), mentions, posts + {id})
  {
    var out := outbox + Sent(reply);
    forall i, j | 0 <= i < j < |out|
      ensures out[i].source != out[j].source || out[i].statusId != out[j].statusId
    {
      if j >= |outbox| {
        assert out[i] in outbox;
      }
    }
  }

  /** The state of the bot between polls. */
  class Bot {
    /** The ids of the mentions already handled. */
    var processedMentions: set<string>
    /** The ids of the monitored account's posts already handled. */
    var processedPosts: set<string>
    /** Every reply sent so far, in order. */
    var outbox: seq<Reply>
    /** The HTML entity decoder. */
    const unescape: Decoder
    /** The language detector. */
    const detect: Detector
    /** What the bot answers to a new mention. */
    const answerMention: Responder
    /** What the bot answers to a new post of the monitored account. */
    const answerPost: Responder

    /**
     * The answers are those of `MentionReply` and `PostReply` with the bot's
     * decoder and detector, so they come from their own source and answer the
     * status they are given; every reply sent answers a status already
     * recorded as processed, and no status is answered twice from the
     * same stream.
     */
    ghost predicate Valid()
      reads this
    {
      && answerMention == ResponderFor(Mention, unescape, detect)
      && answerPost == ResponderFor(Monitored, unescape, detect)
      && AnswersFrom(answerMention, Mention)
      && AnswersFrom(answerPost, Monitored)
      && Consistent(outbox, processedMentions, processedPosts)
    }

    /**
     * Start-up: the statuses present before the bot starts (the last 40
     * mentions and the last 40 posts of the monitored account) are recorded
     * as processed, so they are never answered.
     */
    constructor (initialMentions: seq<Status>, initialPosts: seq<Status>, unescape: Decoder, detect: Detector)
      ensures Valid()
      ensures processedMentions == Ids(initialMentions)
      ensures processedPosts == Ids(initialPosts)
      ensures outbox == []
      ensures this.unescape == unescape && this.detect == detect
      ensures answerMention == ResponderFor(Mention, unescape, detect)
      ensures answerPost == ResponderFor(Monitored, unescape, detect)
    {
      this.unescape := unescape;
      this.detect := detect;
      answerMention := ResponderFor(Mention, unescape, detect);
      answerPost := ResponderFor(Monitored, unescape, detect);
      ResponderAnswers(Mention, unescape, detect);
      ResponderAnswers(Monitored, unescape, detect);
      var mentions: set<string> := {};
      for i := 0 to |initialMentions|
        invariant mentions + Ids(initialMentions[i..]) == Ids(initialMentions)
      {
        assert initialMentions[i..][0] == initialMentions[i] && initialMentions[i..][1..] == initialMentions[i + 1..];
        mentions := mentions + {initialMentions[i].id};
      }
      var posts: set<string> := {};
      for i := 0 to |initialPosts|
        invariant posts + Ids(initialPosts[i..]) == Ids(initialPosts)
      {
        assert initialPosts[i..][0] == initialPosts[i] && initialPosts[i..][1..] == initialPosts[i + 1..];
        posts := posts + {initialPosts[i].id};
      }
      assert initialMentions[|initialMentions|..] == [];
      assert initialPosts[|initialPosts|..] == [];
      processedMentions := mentions;
      processedPosts := posts;
      outbox := [];
    }

    /** One mention of a poll: an unseen one is recorded and, when it asks for a word, answered. */
    method HandleMention(status: Status)
      requires Valid()
      modifies this
      ensures Valid()
      ensures processedMentions == old(processedMentions) + {status.id}
      ensures processedPosts == old(processedPosts)
      ensures outbox == old(outbox) + StepReplies(old(processedMentions), status, answerMention)
    {
      if status.id in processedMentions {
        return;
      }
      var reply := answerMention(status);
      ConsistentAfterAnswer(outbox, processedMentions, processedPosts, Mention, status.id, reply);
      processedMentions := processedMentions + {status.id};
      if reply.Some? {
        outbox := outbox + [reply.value];
      } else {
        assert outbox + Sent(reply) == outbox;
      }
    }

    /** One post of the monitored account: an unseen one is recorded and, when it is a single word, answered. */
    method HandlePost(status: Status)
      requires Valid()
      modifies this
      ensures Valid()
      ensures processedPosts == old(processedPosts) + {status.id}
      ensures processedMentions == old(processedMentions)
      ensures outbox == old(outbox) + StepReplies(old(processedPosts), status, answerPost)
    {
      if status.id in processedPosts {
        return;
      }
      var reply := answerPost(status);
      ConsistentAfterAnswer(outbox, processedMentions, processedPosts, Monitored, status.id, reply);
      processedPosts := processedPosts + {status.id};
      if reply.Some? {
        outbox := outbox + [reply.value];
      } else {
        assert outbox + Sent(reply) == outbox;
      }
    }

    /** The new mentions of one poll: each unseen one is recorded, and answered when it asks for a word. */
    method PollMentions(batch: seq<Status>)
      requires Valid()
      modifies this
      ensures Valid()
      ensures processedMentions == old(processedMentions) + Ids(batch)
      ensures processedPosts == old(processedPosts)
      ensures outbox == old(outbox) + NewReplies(old(processedMentions), batch, answerMention)
    {
      for i := 0 to |batch|
        invariant processedMentions + Ids(batch[i..]) == old(processedMentions) + Ids(batch)
        invariant processedPosts == old(processedPosts)
        invariant outbox + NewReplies(processedMentions, batch[i..], answerMention)
               == old(outbox) + NewReplies(old(processedMentions), batch, answerMention)
        invariant Valid()
      {
        var status := batch[i];
        NewRepliesStep(processedMentions, batch, i, answerMention);
        AppendAssociative(outbox, StepReplies(processedMentions, status, answerMention),
                          NewReplies(processedMentions + {status.id}, batch[i + 1..], answerMention));
        HandleMention(status);
      }
      assert batch[|batch|..] == [];
    }

    /** The new posts of the monitored account: each unseen one is recorded, and answered when it is a single word. */
    method PollPosts(batch: seq<Status>)
      requires Valid()
      modifies this
      ensures Valid()
      ensures processedPosts == old(processedPosts) + Ids(batch)
      ensures processedMentions == old(processedMentions)
      ensures outbox == old(outbox) + NewReplies(old(processedPosts), batch, answerPost)
    {
      for i := 0 to |batch|
        invariant processedPosts + Ids(batch[i..]) == old(processedPosts) + Ids(batch)
        invariant processedMentions == old(processedMentions)
        invariant outbox + NewReplies(processedPosts, batch[i..], answerPost)
               == old(outbox) + NewReplies(old(processedPosts), batch, answerPost)
        invariant Valid()
      {
        var status := batch[i];
        NewRepliesStep(processedPosts, batch, i, answerPost);
        AppendAssociative(outbox, StepReplies(processedPosts, status, answerPost),
                          NewReplies(processedPosts + {status.id}, batch[i + 1..], answerPost));
        HandlePost(status);
      }
      assert batch[|batch|..] == [];
    }

    /** One round of the polling loop: the new mentions first, then the new posts of the monitored account. */
    method Poll(mentions: seq<Status>, posts: seq<Status>)
      requires Valid()
      modifies this
      ensures Valid()
      ensures processedMentions == old(processedMentions) + Ids(mentions)
      ensures processedPosts == old(processedPosts) + Ids(posts)
      ensures outbox == old(outbox)
                      + NewReplies(old(processedMentions), mentions, answerMention)
                      + NewReplies(old(processedPosts), posts, answerPost)
    {
      PollMentions(mentions);
      PollPosts(posts);
    }
  }
}
