/** The chat routes (backend/routes/chat.js): starting a session with
    questions drawn from the job description, and grading an answer with the
    help of the retrieved chunks. The session collection is a `ChatStore`
    whose map the routes update; the document collection is passed in as the
    list of stored documents; the language model is a function from the
    prompt to the reply text. */
module Chat {
  import opened Wrappers
  import opened Text
  import opened Sorting
  import opened Models
  import opened Embeddings
  import opened Rag
  import opened Documents
  import opened ReplyParser
  import opened Seqs

  /** `.slice(0, 4)` on the question lines. */
  const MaxQuestions: nat := 4

  /** What the grading prompt names as the question when there is none. */
  const DefaultQuestion: string := "General question"

  /** What is sent to the language model. Its wording is free text; only the
      parts the route fills in are kept. */
  datatype Prompt =
    | QuestionPrompt(jdText: string)
    | GradingPrompt(question: string, response: string, context: string)

  // ---------------------------------------------------------------------------
  // Start

  /** `jd.chunks.map(chunk => chunk.text).join(' ')`. */
  function JdText(jd: Document): string {
    Join(Map(ChunkTextOf, jd.chunks), " ")
  }

  /** For a job description stored by the upload route, the text the model
      is given is the description's words joined by single spaces. */
  lemma {:induction false} JdTextOfUpload(jd: Document, text: string)
    requires jd.chunks == ChunksFor(SplitWords(text))
    ensures JdText(jd) == Join(SplitWords(text), " ")
  {
    ChunkTextsJoin(SplitWords(text));
  }

  /** `text.split('\n').filter(q => q.trim()).slice(0, 4)`. */
  function QuestionsOf(reply: string): (qs: seq<string>)
    ensures |qs| <= MaxQuestions
    ensures forall i :: 0 <= i < |qs| ==> !IsBlank(qs[i]) && '\n' !in qs[i]
  {
    var lines := NonBlank(SplitOn(reply, '\n'));
    assert forall i :: 0 <= i < |lines| ==> lines[i] in SplitOn(reply, '\n');
    Slice(lines, MaxQuestions)
  }

  /** For a reply made of lines, the questions are its first four non-blank
      lines, in order and untrimmed. */
  lemma {:induction false} QuestionsFromLines(lines: seq<string>)
    requires |lines| >= 1
    requires forall i :: 0 <= i < |lines| ==> '\n' !in lines[i]
    ensures QuestionsOf(Join(lines, "\n")) == Slice(NonBlank(lines), MaxQuestions)
  {
    SplitOnJoin(lines, '\n');
  }

  /** Up to four non-blank lines written one per line come back unchanged. */
  lemma {:induction false} QuestionsRoundTrip(qs: seq<string>)
    requires |qs| <= MaxQuestions
    requires forall i :: 0 <= i < |qs| ==> !IsBlank(qs[i]) && '\n' !in qs[i]
    ensures QuestionsOf(Join(qs, "\n")) == qs
  {
    if qs == [] {
      assert SplitOn("", '\n') == [""];
      assert Trim("") == "";
    } else {
      QuestionsFromLines(qs);
      NonBlankKeepsAll(qs);
    }
  }

  /** A blank line between two questions is dropped. */
  lemma {:induction false} BlankLineDropped(q1: string, blank: string, q2: string)
    requires !IsBlank(q1) && !IsBlank(q2) && IsBlank(blank)
    requires '\n' !in q1 && '\n' !in blank && '\n' !in q2
    ensures QuestionsOf(q1 + "\n" + blank + "\n" + q2) == [q1, q2]
  {
    var lines := [q1, blank, q2];
    assert Join(lines, "\n") == q1 + "\n" + blank + "\n" + q2 by {
      assert Join(lines[1..], "\n") == blank + "\n" + q2 by {
        assert lines[1..][1..] == [q2];
      }
    }
    QuestionsFromLines(lines);
    assert NonBlank(lines) == [q1, q2] by {
      assert lines[1..][1..] == [q2] && lines[1..][1..][1..] == [];
      assert NonBlank([q2]) == [q2];
      assert NonBlank(lines[1..]) == [q2];
    }
  }

  /** The assistant message a question becomes: no score, no feedback. */
  function QuestionMessage(q: string): Message {
    Message(Assistant, q, None, None, [])
  }

  function QuestionMessages(qs: seq<string>): (ms: seq<Message>)
    ensures |ms| == |qs|
    ensures forall i :: 0 <= i < |qs| ==> ms[i] == QuestionMessage(qs[i])
  {
    seq(|qs|, i requires 0 <= i < |qs| => QuestionMessage(qs[i]))
  }

  /** `Chat.create` accepts every session `/start` builds: each question is
      non-blank, so each content passes `required`, and no score is set. */
  lemma {:induction false} StartSessionValid(user: UserId, reply: string)
    ensures ValidSession(Session(user, QuestionMessages(QuestionsOf(reply))))
  {
    var qs := QuestionsOf(reply);
    forall i | 0 <= i < |qs| ensures qs[i] != "" {
      if qs[i] == "" { assert IsBlank(qs[i]); }
    }
  }

  // ---------------------------------------------------------------------------
  // Query

  /** `chat.messages[chat.messages.length - 2]?.content || 'General question'`,
      read after the user message has been pushed. */
  function CurrentQuestion(messages: seq<Message>): (q: string)
    ensures q != ""
  {
    if |messages| >= 2 && messages[|messages| - 2].content != "" then messages[|messages| - 2].content
    else DefaultQuestion
  }

  /** The question the answer is graded against is the last message of the
      history before this query (whoever sent it), or the default when the
      history is empty or that message has no content. */
  lemma {:induction false} CurrentQuestionIsLastOfHistory(history: seq<Message>, m: Message)
    ensures history != [] && history[|history| - 1].content != "" ==>
              CurrentQuestion(history + [m]) == history[|history| - 1].content
    ensures history == [] || history[|history| - 1].content == "" ==>
              CurrentQuestion(history + [m]) == DefaultQuestion
  {
    var ms := history + [m];
    if history != [] {
      assert ms[|ms| - 2] == history[|history| - 1];
    }
  }

  function CandidateText(c: Candidate): string {
    c.text
  }

  /** `relevantChunks.map(chunk => chunk.text).join('\n\n')`. */
  function Context(relevant: seq<Candidate>): string {
    Join(Map(CandidateText, relevant), "\n\n")
  }

  /** With the default `topK` of 2, the context is empty when the user has
      no chunks, one chunk's text when there is one, and otherwise the two
      most similar texts, the more similar first, separated by a blank line. */
  lemma {:induction false} ContextOfRetrieval(docs: seq<Document>, qv: seq<int>)
    ensures TotalChunks(docs) == 0 ==> Context(Retrieval(docs, qv, DefaultTopK)) == ""
    ensures TotalChunks(docs) == 1 ==> var r := Retrieval(docs, qv, DefaultTopK);
      |r| == 1 && Context(r) == r[0].text
    ensures TotalChunks(docs) >= 2 ==> var r := Retrieval(docs, qv, DefaultTopK);
      |r| == 2 && Context(r) == r[0].text + "\n\n" + r[1].text && SimKey(r[0]) >= SimKey(r[1])
  {
    var r := Retrieval(docs, qv, DefaultTopK);
    RetrievalLength(docs, qv, DefaultTopK);
    ContextShape(r);
    if |r| == 2 {
      var sorted := SortDesc(Candidates(docs, qv), SimKey);
      assert r[0] == sorted[0] && r[1] == sorted[1];
    }
  }

  /** The context of none, one or two candidates. */
  lemma {:induction false} ContextShape(r: seq<Candidate>)
    ensures r == [] ==> Context(r) == ""
    ensures |r| == 1 ==> Context(r) == r[0].text
    ensures |r| == 2 ==> Context(r) == r[0].text + "\n\n" + r[1].text
  {
    var texts := Map(CandidateText, r);
    if |r| == 2 {
      assert texts[1..] == [r[1].text];
      assert Join(texts[1..], "\n\n") == r[1].text;
      assert texts[0] == r[0].text;
    }
  }

  /** The user message `chat.messages.push({ role: 'user', content: message })`. */
  function UserMessage(content: string): Message {
    Message(User, content, None, None, [])
  }

  /** The graded assistant message: the whole reply with the three parsed
      fields. */
  function GradedMessage(reply: string): Message {
    var g := ParseReply(reply);
    Message(Assistant, reply, g.score, Some(g.feedback), g.citations)
  }

  /** The grading prompt for an answer `message` in a session with
      `history`: the current question, the answer and the context built from
      the user's two most similar chunks. */
  function GradingPromptFor(history: seq<Message>, docs: seq<Document>, user: UserId, message: string): Prompt {
    GradingPrompt(
      CurrentQuestion(history + [UserMessage(message)]),
      message,
      Context(Retrieval(OwnedBy(docs, user), Embedding(message), DefaultTopK)))
  }

  /** The grading call of `/query`: with the answer pushed onto the history,
      the owner's chunks closest to the answer become the context, the last
      assistant message is the question, and the model is asked to grade. */
  method Grade(history: seq<Message>, docs: seq<Document>, user: UserId, message: string, llm: Prompt -> string)
    returns (reply: string)
    ensures reply == llm(GradingPromptFor(history, docs, user, message))
  {
    var messages := history + [UserMessage(message)];
    var relevantChunks := RetrieveRelevantChunks(OwnedBy(docs, user), message);
    var context := Context(relevantChunks);
    var lastQuestion := CurrentQuestion(messages);
    reply := llm(GradingPrompt(lastQuestion, message, context));
  }

  /** `chat.save()` accepts the two new messages exactly when the answer and
      the reply are non-empty and the parsed score, if any, is within 1 to 10. */
  lemma {:induction false} QuerySaveValid(u: UserId, history: seq<Message>, message: string, reply: string)
    requires ValidSession(Session(u, history))
    ensures ValidSession(Session(u, history + [UserMessage(message), GradedMessage(reply)]))
        <==> message != "" && reply != "" && ValidScore(ScoreOf(reply))
  {
    var added := [UserMessage(message), GradedMessage(reply)];
    ValidSessionAppend(u, history, added);
    PairValid(added);
    GradedMessageValid(reply);
  }

  /** Every message of a pair is valid exactly when both are. */
  lemma {:induction false} PairValid(added: seq<Message>)
    requires |added| == 2
    ensures (forall i :: 0 <= i < |added| ==> ValidMessage(added[i]))
        <==> ValidMessage(added[0]) && ValidMessage(added[1])
  {
  }

  /** The graded message passes the schema exactly when the reply is not
      empty and its score, if any, lies in range. */
  lemma {:induction false} GradedMessageValid(reply: string)
    ensures ValidMessage(GradedMessage(reply)) <==> reply != "" && ValidScore(ScoreOf(reply))
  {
    var g := ParseReply(reply);
    assert GradedMessage(reply).content == reply;
    assert g.score == ScoreOf(reply);
  }

  /** The parser does not clamp: a reply whose score line reads 0 or more
      than 10 makes the save fail. */
  lemma {:induction false} OutOfRangeScoreRejected(u: UserId, history: seq<Message>, message: string, n: nat, t: string)
    requires ValidSession(Session(u, history))
    requires n == 0 || n > 10
    requires t == [] || !IsDigit(t[0])
    ensures !ValidSession(Session(u, history + [UserMessage(message), GradedMessage("Score: " + DecimalString(n) + t)]))
  {
    ScoreOfNumeral(n, t);
    QuerySaveValid(u, history, message, "Score: " + DecimalString(n) + t);
  }

  /** What `/query` answers with. */
  datatype QueryResponse = QueryResponse(message: string, grading: Grading)

  datatype StartError = MissingDocuments
  datatype QueryError = SessionNotFound | SaveFailed

  /** Whether `chatId` names a session of `user`: the filter of
      `Chat.findOne({ _id: chatId, userId })`. */
  predicate Owns(sessions: map<ChatId, Session>, chatId: ChatId, user: UserId) {
    chatId in sessions && sessions[chatId].userId == user
  }

  predicate ValidStore(sessions: map<ChatId, Session>, nextId: ChatId) {
    forall id :: id in sessions ==> id < nextId && ValidSession(sessions[id])
  }

  /** Writing a valid session under a used or a fresh id keeps the store valid. */
  lemma {:induction false} ValidStoreWrite(sessions: map<ChatId, Session>, nextId: ChatId, id: ChatId, s: Session)
    requires ValidStore(sessions, nextId) && ValidSession(s)
    ensures id < nextId ==> ValidStore(sessions[id := s], nextId)
    ensures ValidStore(sessions, nextId + 1) && (id == nextId ==> ValidStore(sessions[id := s], nextId + 1))
  {
  }

  /** The chat collection. Ids are handed out from a counter, standing for
      fresh ObjectIds. */
  class ChatStore {
    var sessions: map<ChatId, Session>
    var nextId: ChatId

    /** Every stored session passed validation when it was written, and no
        stored id is at or above the counter. */
    predicate Valid()
      reads this
    {
      ValidStore(sessions, nextId)
    }

    constructor()
      ensures Valid() && sessions == map[] && nextId == 0
    {
      sessions := map[];
      nextId := 0;
    }

    /** `POST /api/chat/start`. Fails, creating nothing, unless the user has
        both a resume and a job description; otherwise asks the model for
        questions about the job description and stores a new session whose
        messages are the question lines, each as an assistant message. */
    method Start(docs: seq<Document>, user: UserId, llm: Prompt -> string)
      returns (r: Result<(ChatId, seq<Message>), StartError>)
      requires Valid()
      modifies this
      ensures Valid()
      ensures r.Failure? <==> FindByType(docs, user, Resume).None? || FindByType(docs, user, Jd).None?
      ensures r.Failure? ==> sessions == old(sessions) && nextId == old(nextId)
      ensures r.Success? ==>
        var msgs := QuestionMessages(QuestionsOf(llm(QuestionPrompt(JdText(FindByType(docs, user, Jd).value)))));
        r.value.0 !in old(sessions) && r.value.1 == msgs
        && sessions == old(sessions)[r.value.0 := Session(user, msgs)]
      ensures r.Success? ==> |r.value.1| <= MaxQuestions
      ensures r.Success? ==> forall i :: 0 <= i < |r.value.1| ==>
        r.value.1[i].role == Assistant && r.value.1[i].score.None? && !IsBlank(r.value.1[i].content)
    {
      var resume := FindByType(docs, user, Resume);
      var jd := FindByType(docs, user, Jd);
      if resume.None? || jd.None? {
        return Failure(MissingDocuments);
      }
      var jdText := JdText(jd.value);
      var reply := llm(QuestionPrompt(jdText));
      var questions := QuestionsOf(reply);
      var messages := QuestionMessages(questions);
      StartSessionValid(user, reply);
      var id := nextId;
      ValidStoreWrite(sessions, nextId, id, Session(user, messages));
      sessions := sessions[id := Session(user, messages)];
      nextId := nextId + 1;
      r := Success((id, messages));
    }

    /** `POST /api/chat/query`. An unknown session, or one of another user,
        fails and changes nothing. Otherwise the answer is pushed as a user
        message, the user's chunks are retrieved for it, the model grades it
        against the current question, and the reply is pushed as an assistant
        message with its parsed score, feedback and citations. The session is
        then saved: if the save's validation rejects it, nothing is stored. */
    method Query(docs: seq<Document>, user: UserId, chatId: ChatId, message: string, llm: Prompt -> string)
      returns (r: Result<QueryResponse, QueryError>)
      requires Valid()
      modifies this
      ensures Valid() && nextId == old(nextId)
      ensures r == Failure(SessionNotFound) <==> !Owns(old(sessions), chatId, user)
      ensures !Owns(old(sessions), chatId, user) ==> sessions == old(sessions)
      ensures Owns(old(sessions), chatId, user) ==>
        var s := old(sessions)[chatId];
        var reply := llm(GradingPromptFor(s.messages, docs, user, message));
        var saved := Session(s.userId, s.messages + [UserMessage(message), GradedMessage(reply)]);
        (ValidSession(saved) ==>
           r == Success(QueryResponse(reply, ParseReply(reply))) && sessions == old(sessions)[chatId := saved])
        && (!ValidSession(saved) ==> r == Failure(SaveFailed) && sessions == old(sessions))
    {
      if chatId !in sessions || sessions[chatId].userId != user {
        return Failure(SessionNotFound);
      }
      var chat := sessions[chatId];
      var reply := Grade(chat.messages, docs, user, message, llm);
      var grading := ParseReply(reply);
      var messages := chat.messages + [UserMessage(message)];
      messages := messages + [Message(Assistant, reply, grading.score, Some(grading.feedback), grading.citations)];
      AppendPair(chat.messages, UserMessage(message), GradedMessage(reply));
      var updated := Session(chat.userId, messages);
      if !ValidSession(updated) {
        return Failure(SaveFailed);
      }
      ValidStoreWrite(sessions, nextId, chatId, updated);
      sessions := sessions[chatId := updated];
      r := Success(QueryResponse(reply, grading));
    }
  }
}
