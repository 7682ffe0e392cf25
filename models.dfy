/** The two persisted record kinds, Document and Chat, as datatypes, with the
    constraints their schemas make a save check (`required`, `enum`, `min`,
    `max`). */
module Models {
  import opened Wrappers

  type UserId = nat
  type DocId = nat
  type ChatId = nat

  /** The `type` enum of a document: a resume or a job description. */
  datatype DocType = Resume | Jd

  /** The stored spelling of a document type. */
  function DocTypeName(t: DocType): string {
    match t
    case Resume => "resume"
    case Jd => "jd"
  }

  /** Reads the enum back from a request field; only the two stored
      spellings are accepted. */
  function ParseDocType(s: string): (r: Option<DocType>)
    ensures r.Some? <==> (s == "resume" || s == "jd")
    ensures r.Some? ==> DocTypeName(r.value) == s
  {
    if s == "resume" then Some(Resume) else if s == "jd" then Some(Jd) else None
  }

  /** One word window of a document with its frequency vector. */
  datatype Chunk = Chunk(text: string, embedding: seq<int>)

  /** A stored document. `createdAt` is the timestamp the schema's
      `timestamps` option adds. */
  datatype Document = Document(
    id: DocId,
    userId: UserId,
    docType: DocType,
    filename: string,
    url: string,
    chunks: seq<Chunk>,
    createdAt: int)

  /** Mongoose's `required` check on a String path: present and not empty.
      (An array path such as `embedding` passes `required` even when empty.) */
  predicate RequiredString(s: string) {
    s != ""
  }

  predicate ValidChunk(c: Chunk) {
    RequiredString(c.text)
  }

  /** What `Document.create` checks before it writes. `userId` and `type`
      are present and in their enum by construction of the datatype. */
  predicate ValidDocument(d: Document) {
    RequiredString(d.filename) && RequiredString(d.url)
    && forall i :: 0 <= i < |d.chunks| ==> ValidChunk(d.chunks[i])
  }

  /** The `role` enum of a message. */
  datatype Role = User | Assistant

  /** One turn of a chat. `score` and `feedback` are optional paths; the
      `citations` array defaults to empty. */
  datatype Message = Message(
    role: Role,
    content: string,
    score: Option<nat>,
    feedback: Option<string>,
    citations: seq<string>)

  /** `min: 1, max: 10` on `score`; an absent score is not checked. */
  predicate ValidScore(score: Option<nat>) {
    score.Some? ==> 1 <= score.value <= 10
  }

  predicate ValidMessage(m: Message) {
    RequiredString(m.content) && ValidScore(m.score)
  }

  /** A chat session: its owner and its ordered messages. */
  datatype Session = Session(userId: UserId, messages: seq<Message>)

  /** What `chat.save()` and `Chat.create` check before they write. */
  predicate ValidSession(s: Session) {
    forall i :: 0 <= i < |s.messages| ==> ValidMessage(s.messages[i])
  }

  /** Appending to a valid session keeps it valid exactly when every appended
      message is valid on its own. */
  lemma {:induction false} ValidSessionAppend(u: UserId, ms: seq<Message>, extra: seq<Message>)
    requires ValidSession(Session(u, ms))
    ensures ValidSession(Session(u, ms + extra))
        <==> forall i :: 0 <= i < |extra| ==> ValidMessage(extra[i])
  {
    var all := ms + extra;
    if forall i :: 0 <= i < |extra| ==> ValidMessage(extra[i]) {
      forall i | 0 <= i < |all| ensures ValidMessage(all[i]) {
        if i >= |ms| { assert all[i] == extra[i - |ms|]; }
      }
    } else {
      var i :| 0 <= i < |extra| && !ValidMessage(extra[i]);
      assert all[|ms| + i] == extra[i];
    }
  }
}
