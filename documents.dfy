/** The text-handling half of the document routes: the type check and the
    500-word chunker of the upload route, the listing order, and the storage
    public id the delete route derives from a stored URL. The PDF parser, the
    file store and the database are replaced by their outcomes, passed in. */
module Documents {
  import opened Wrappers
  import opened Text
  import opened Sorting
  import opened Seqs
  import opened Models
  import opened Embeddings

  /** Words per chunk. */
  const WindowSize: nat := 500

  // ---------------------------------------------------------------------------
  // Words and windows

  /** `text.split(/\s+/)`, the word list as the upload route computes it. */
  function SplitWords(text: string): seq<string> {
    SplitRuns(text, IsSpace)
  }

  /** `text.trim().split(/\s+/)`: the word list with no empty piece at either
      end, the corrected split (see Findings in the README). */
  function Words(text: string): (r: seq<string>)
    ensures IsBlank(text) <==> r == [""]
    ensures !IsBlank(text) ==> forall i :: 0 <= i < |r| ==> r[i] != ""
  {
    SplitRuns(Trim(text), IsSpace)
  }

  /** `ceil(n / 500)`: how many times the loop `i += 500` runs below `n`. */
  function NumWindows(n: nat): nat {
    (n + WindowSize - 1) / WindowSize
  }

  /** The loop runs for `k` exactly while `500 * k` is below the length. */
  lemma {:induction false} NumWindowsBound(n: nat, k: nat)
    ensures WindowSize * k < n <==> k < NumWindows(n)
  {
  }

  /** End of `words.slice(i, i + 500)`, clamped to the length. */
  function WindowEnd(n: nat, i: nat): nat {
    if i + WindowSize <= n then i + WindowSize else n
  }

  /** The `k`-th window of at most 500 words. */
  function Window(ws: seq<string>, k: nat): seq<string>
    requires k < NumWindows(|ws|)
  {
    NumWindowsBound(|ws|, k);
    ws[WindowSize * k..WindowEnd(|ws|, WindowSize * k)]
  }

  function Windows(ws: seq<string>): (r: seq<seq<string>>)
    ensures |r| == NumWindows(|ws|)
    ensures forall k :: 0 <= k < |r| ==> r[k] == Window(ws, k)
  {
    seq(NumWindows(|ws|), k requires 0 <= k < NumWindows(|ws|) => Window(ws, k))
  }

  /** The chunk stored for one window: its words joined by single spaces and
      the frequency vector of that text. */
  function ChunkOf(window: seq<string>): Chunk {
    var text := Join(window, " ");
    Chunk(text, Embedding(text))
  }

  function ChunksFor(ws: seq<string>): seq<Chunk> {
    Map(ChunkOf, Windows(ws))
  }

  /** One chunk per window, the `k`-th made from the `k`-th window. */
  lemma {:induction false} ChunkAt(ws: seq<string>, k: nat)
    requires k < NumWindows(|ws|)
    ensures |ChunksFor(ws)| == NumWindows(|ws|)
    ensures ChunksFor(ws)[k] == ChunkOf(Window(ws, k))
    ensures ChunksFor(ws)[k].text == Join(Window(ws, k), " ")
  {
  }

  /** The chunker loop: steps through the words 500 at a time and pushes one
      chunk per window. */
  method ChunkText(words: seq<string>) returns (chunks: seq<Chunk>)
    ensures chunks == ChunksFor(words)
  {
    chunks := [];
    var i := 0;
    while i < |words|
      invariant i == WindowSize * |chunks|
      invariant |chunks| <= NumWindows(|words|)
      invariant chunks == ChunksFor(words)[..|chunks|]
    {
      var chunk := MakeChunk(words, i);
      ChunkStep(words, |chunks|);
      chunks := chunks + [chunk];
      i := i + WindowSize;
    }
    ChunksDone(words, |chunks|);
  }

  /** The body of the loop: the text of `words.slice(i, i + 500)` joined by
      spaces, and its vector. */
  method MakeChunk(words: seq<string>, i: nat) returns (chunk: Chunk)
    requires i < |words|
    ensures chunk == ChunkOf(words[i..WindowEnd(|words|, i)])
  {
    var chunkText := Join(words[i..WindowEnd(|words|, i)], " ");
    var embedding := GenerateEmbedding(chunkText);
    chunk := Chunk(chunkText, embedding);
  }

  /** The next chunk of the loop is the next element of `ChunksFor`. */
  lemma {:induction false} ChunkStep(ws: seq<string>, c: nat)
    requires WindowSize * c < |ws|
    ensures c < NumWindows(|ws|)
    ensures ChunksFor(ws)[..c + 1]
         == ChunksFor(ws)[..c] + [ChunkOf(ws[WindowSize * c..WindowEnd(|ws|, WindowSize * c)])]
  {
    NumWindowsBound(|ws|, c);
    ChunkAt(ws, c);
    PrefixSnoc(ChunksFor(ws), c);
  }

  /** When the loop stops, every window has its chunk. */
  lemma {:induction false} ChunksDone(ws: seq<string>, c: nat)
    requires c <= NumWindows(|ws|) && WindowSize * c >= |ws|
    ensures ChunksFor(ws)[..c] == ChunksFor(ws)
  {
    NumWindowsBound(|ws|, c);
  }

  /** Each chunk carries the vector of its own text. */
  lemma {:induction false} ChunkEmbeddings(ws: seq<string>)
    ensures forall k :: 0 <= k < |ChunksFor(ws)| ==> ChunksFor(ws)[k].embedding == Embedding(ChunksFor(ws)[k].text)
  {
    forall k | 0 <= k < |ChunksFor(ws)| ensures ChunksFor(ws)[k].embedding == Embedding(ChunksFor(ws)[k].text) {
      ChunkAt(ws, k);
    }
  }

  /** `[].concat(...windows)`. */
  function Flatten(ss: seq<seq<string>>): seq<string> {
    if ss == [] then [] else Flatten(ss[..|ss| - 1]) + ss[|ss| - 1]
  }

  /** How many words the first `m` windows hold between them. */
  function Covered(n: nat, m: nat): nat {
    if WindowSize * m <= n then WindowSize * m else n
  }

  /** The first `m` windows cover exactly the words before `500 * m`. */
  lemma {:induction false} FlattenWindowsPrefix(ws: seq<string>, m: nat)
    requires m <= NumWindows(|ws|)
    ensures Flatten(Windows(ws)[..m]) == ws[..Covered(|ws|, m)]
  {
    if m > 0 {
      var w := Windows(ws);
      FlattenWindowsPrefix(ws, m - 1);
      assert w[..m][..m - 1] == w[..m - 1];
      NumWindowsBound(|ws|, m - 1);
      assert Covered(|ws|, m - 1) == WindowSize * (m - 1);
      assert ws[..WindowSize * (m - 1)] + w[m - 1] == ws[..Covered(|ws|, m)];
    }
  }

  /** The windows put back together are the word list: nothing is dropped,
      repeated or reordered. */
  lemma {:induction false} WindowsCoverWords(ws: seq<string>)
    ensures Flatten(Windows(ws)) == ws
  {
    var n := NumWindows(|ws|);
    FlattenWindowsPrefix(ws, n);
    assert Windows(ws)[..n] == Windows(ws);
    if n == 0 {
      assert ws == [];
    } else {
      NumWindowsBound(|ws|, n);
      NumWindowsBound(|ws|, n - 1);
    }
  }

  /** Every window but the last holds exactly 500 words; the last holds from 1
      to 500; and there are `ceil(|ws| / 500)` of them. */
  lemma {:induction false} WindowSizes(ws: seq<string>)
    ensures |ws| > 0 ==> WindowSize * (NumWindows(|ws|) - 1) < |ws| <= WindowSize * NumWindows(|ws|)
    ensures forall k :: 0 <= k < NumWindows(|ws|) - 1 ==> |Windows(ws)[k]| == WindowSize
    ensures |ws| > 0 ==> 1 <= |Windows(ws)[NumWindows(|ws|) - 1]| <= WindowSize
  {
    var n := NumWindows(|ws|);
    forall k | 0 <= k && k + 1 < n ensures |Windows(ws)[k]| == WindowSize {
      NumWindowsBound(|ws|, k + 1);
    }
    if |ws| > 0 {
      NumWindowsBound(|ws|, n);
      NumWindowsBound(|ws|, n - 1);
    }
  }

  /** A split always has a word, so the upload always stores at least one
      chunk, `ceil(|words| / 500)` of them. */
  lemma {:induction false} ChunkCount(text: string)
    ensures var ws := Words(text);
      |ChunksFor(ws)| == NumWindows(|ws|) >= 1
      && WindowSize * (|ChunksFor(ws)| - 1) < |ws| <= WindowSize * |ChunksFor(ws)|
    ensures var ws := SplitWords(text);
      |ChunksFor(ws)| == NumWindows(|ws|) >= 1
      && WindowSize * (|ChunksFor(ws)| - 1) < |ws| <= WindowSize * |ChunksFor(ws)|
  {
    WindowSizes(Words(text));
    WindowSizes(SplitWords(text));
  }

  /** Empty text gives one chunk with empty text and an empty vector, not zero
      chunks. */
  lemma {:induction false} EmptyTextOneChunk()
    ensures ChunksFor(SplitWords("")) == [Chunk("", [])]
    ensures ChunksFor(Words("")) == [Chunk("", [])]
  {
    assert SplitWords("") == [""];
    assert Trim("") == "";
    var w := Windows([""]);
    assert |w| == 1 && w[0] == [""];
    assert Join([""], " ") == "";
    EmbeddingOfShortText();
    assert ChunkOf([""]) == Chunk("", []);
  }

  /** A window (of a list of words such as a split yields) is taken from the
      word list: its pieces hold no white space and only its ends can be
      empty. */
  lemma {:induction false} WindowPieces(ws: seq<string>, k: nat)
    requires k < NumWindows(|ws|)
    requires forall i :: 0 <= i < |ws| ==> NoneOf(ws[i], IsSpace)
    requires forall i :: 0 < i < |ws| - 1 ==> ws[i] != ""
    ensures var w := Window(ws, k);
      |w| >= 1
      && (forall i :: 0 <= i < |w| ==> NoneOf(w[i], IsSpace))
      && (forall i :: 0 < i < |w| - 1 ==> w[i] != "")
  {
    NumWindowsBound(|ws|, k);
    var s := WindowSize * k;
    var w := Window(ws, k);
    forall i | 0 <= i < |w| ensures NoneOf(w[i], IsSpace) && (0 < i < |w| - 1 ==> w[i] != "") {
      assert w[i] == ws[s + i];
    }
  }

  /** Splitting a stored chunk's text on white space gives back its window. */
  lemma {:induction false} ChunkTextSplitsToWindow(ws: seq<string>, k: nat)
    requires k < NumWindows(|ws|)
    requires forall i :: 0 <= i < |ws| ==> NoneOf(ws[i], IsSpace)
    requires forall i :: 0 < i < |ws| - 1 ==> ws[i] != ""
    ensures SplitWords(ChunksFor(ws)[k].text) == Windows(ws)[k]
  {
    WindowPieces(ws, k);
    SplitRunsJoin(Window(ws, k), ' ', IsSpace);
  }

  function ChunkTextOf(c: Chunk): string {
    c.text
  }

  /** The chunk texts joined by single spaces are the words joined by single
      spaces: the text a reader of all chunks sees is the whole document. */
  lemma {:induction false} ChunkTextsJoin(ws: seq<string>)
    ensures Join(Map(ChunkTextOf, ChunksFor(ws)), " ") == Join(ws, " ")
  {
    var w := Windows(ws);
    var texts := Map(ChunkTextOf, ChunksFor(ws));
    forall k | 0 <= k < |w| ensures texts[k] == Join(w[k], " ") && |w[k]| >= 1 {
      ChunkAt(ws, k);
      NumWindowsBound(|ws|, k);
    }
    JoinFlatten(w, texts);
    WindowsCoverWords(ws);
  }

  /** Joining the joins of non-empty groups joins the concatenated groups. */
  lemma {:induction false} JoinFlatten(groups: seq<seq<string>>, texts: seq<string>)
    requires |groups| == |texts|
    requires forall k :: 0 <= k < |groups| ==> texts[k] == Join(groups[k], " ") && |groups[k]| >= 1
    ensures Join(texts, " ") == Join(Flatten(groups), " ")
    ensures |groups| >= 1 ==> |Flatten(groups)| >= 1
  {
    var n := |groups|;
    if n == 1 {
      assert Flatten(groups) == Flatten(groups[..0]) + groups[0];
      assert groups[..0] == [];
      assert Flatten(groups) == groups[0];
      assert Join(texts, " ") == texts[0];
    } else if n > 1 {
      var init, last := groups[..n - 1], groups[n - 1];
      JoinFlatten(init, texts[..n - 1]);
      assert Flatten(groups) == Flatten(init) + last;
      PrefixSnoc(texts, n - 1);
      assert texts[..n] == texts;
      JoinAppend(texts[..n - 1], [texts[n - 1]], " ");
      JoinAppend(Flatten(init), last, " ");
    }
  }

  /** With the trimmed word list, every chunk of a text that is not blank has
      non-empty text, so the chunk array passes the schema's `required`
      check. */
  lemma {:induction false} ChunksOfTextValid(text: string)
    requires !IsBlank(text)
    ensures forall k :: 0 <= k < |ChunksFor(Words(text))| ==> ValidChunk(ChunksFor(Words(text))[k])
  {
    var ws := Words(text);
    forall k | 0 <= k < |ChunksFor(ws)| ensures ValidChunk(ChunksFor(ws)[k]) {
      ChunkNonEmpty(ws, k);
    }
  }

  /** A window of non-empty words has non-empty text. */
  lemma {:induction false} ChunkNonEmpty(ws: seq<string>, k: nat)
    requires forall i :: 0 <= i < |ws| ==> ws[i] != ""
    requires k < |ChunksFor(ws)|
    ensures ChunksFor(ws)[k].text != ""
  {
    ChunkAt(ws, k);
    NumWindowsBound(|ws|, k);
    var w := Window(ws, k);
    assert w[0] == ws[WindowSize * k];
    JoinStartsWith(w, " ");
  }

  // ---------------------------------------------------------------------------
  // The route as written: `text.split(/\s+/)`

  /** As written, text ending in white space splits with an empty last piece.
      When that piece is the only word of the last window, the last chunk
      has empty text and `Document.create` rejects the whole upload. */
  lemma {:induction false} TrailingSpaceEmptyChunk(text: string)
    requires text != [] && IsSpace(text[|text| - 1])
    requires |SplitWords(text)| % WindowSize == 1
    ensures var cs := ChunksFor(SplitWords(text));
      |cs| >= 1 && cs[|cs| - 1].text == ""
      && forall d: Document :: d.chunks == cs ==> !ValidDocument(d)
  {
    var ws := SplitWords(text);
    LastWindowSingle(|ws|);
    var n := NumWindows(|ws|);
    assert ws[|ws| - 1] == "";
    LastChunkOfOne(ws);
    var cs := ChunksFor(ws);
    forall d: Document | d.chunks == cs ensures !ValidDocument(d) {
      assert !ValidChunk(d.chunks[n - 1]);
    }
  }

  /** As written, the chunks of `text.split(/\s+/)` all pass `required`
      exactly unless the last window is one empty word: that is, unless the
      text is empty or ends in white space and splits into `500m + 1`
      pieces. Leading white space gives an empty first word but never an
      empty chunk. */
  lemma {:induction false} SplitChunksValid(text: string)
    ensures var ws := SplitWords(text);
      (forall k :: 0 <= k < |ChunksFor(ws)| ==> ValidChunk(ChunksFor(ws)[k]))
      <==> !(|ws| % WindowSize == 1 && (text == [] || IsSpace(text[|text| - 1])))
  {
    var ws := SplitWords(text);
    if |ws| % WindowSize == 1 && ws[|ws| - 1] == "" {
      LastWindowSingle(|ws|);
      LastChunkOfOne(ws);
      assert !ValidChunk(ChunksFor(ws)[NumWindows(|ws|) - 1]);
    } else {
      forall k | 0 <= k < |ChunksFor(ws)| ensures ValidChunk(ChunksFor(ws)[k]) {
        SplitChunkNonEmpty(ws, k);
      }
    }
  }

  /** A window of more than one word joins to a text holding a space; a
      window of one word is the last window, of a list of `500m + 1`
      words. */
  lemma {:induction false} SplitChunkNonEmpty(ws: seq<string>, k: nat)
    requires k < |ChunksFor(ws)|
    requires !(|ws| % WindowSize == 1 && ws[|ws| - 1] == "")
    ensures ChunksFor(ws)[k].text != ""
  {
    ChunkAt(ws, k);
    var w := Window(ws, k);
    if |w| == 1 {
      SingleWordWindow(ws, k);
    }
    JoinNonEmpty(w);
  }

  /** A window of one word is the last word alone, of a list of `500m + 1`
      words. */
  lemma {:induction false} SingleWordWindow(ws: seq<string>, k: nat)
    requires k < NumWindows(|ws|) && |Window(ws, k)| == 1
    ensures |ws| % WindowSize == 1 && Window(ws, k) == [ws[|ws| - 1]]
  {
    NumWindowsBound(|ws|, k);
    assert WindowEnd(|ws|, WindowSize * k) == |ws|;
    OneMoreThanMultiple(k);
  }

  lemma {:induction false} OneMoreThanMultiple(k: nat)
    ensures (WindowSize * k + 1) % WindowSize == 1
  {
  }

  /** Two or more words, or one non-empty word, join to a non-empty text. */
  lemma {:induction false} JoinNonEmpty(w: seq<string>)
    requires |w| >= 2 || (|w| == 1 && w[0] != "")
    ensures Join(w, " ") != ""
  {
    if |w| >= 2 {
      assert Join(w, " ") == w[0] + " " + Join(w[1..], " ");
    }
  }

  /** The save of an upload as written succeeds exactly when the file name
      and URL are present and the split does not end the last window with a
      lone empty word. */
  lemma {:induction false} UploadSaveCondition(user: UserId, t: DocType, name: string, url: string,
                                               text: string, id: DocId, now: int)
    ensures ValidDocument(Document(id, user, t, name, url, ChunksFor(SplitWords(text)), now))
        <==> name != "" && url != ""
             && !(|SplitWords(text)| % WindowSize == 1 && (text == [] || IsSpace(text[|text| - 1])))
  {
    SplitChunksValid(text);
  }

  /** When the count is one more than a multiple of 500, the last window
      holds the last word alone. */
  lemma {:induction false} LastWindowSingle(m: nat)
    requires m % WindowSize == 1
    ensures NumWindows(m) >= 1 && WindowSize * (NumWindows(m) - 1) == m - 1
  {
    var q := m / WindowSize;
    assert m == WindowSize * q + 1;
    assert m + WindowSize - 1 == WindowSize * (q + 1);
    assert NumWindows(m) == q + 1;
  }

  /** The last chunk of words whose last window is the last word alone. */
  lemma {:induction false} LastChunkOfOne(ws: seq<string>)
    requires NumWindows(|ws|) >= 1 && WindowSize * (NumWindows(|ws|) - 1) == |ws| - 1
    ensures |ChunksFor(ws)| == NumWindows(|ws|)
    ensures ChunksFor(ws)[NumWindows(|ws|) - 1].text == ws[|ws| - 1]
  {
    var n := NumWindows(|ws|);
    ChunkAt(ws, n - 1);
    var w := Window(ws, n - 1);
    assert w == [ws[|ws| - 1]];
  }

  /** The input that shows it: any 500 words, each followed by one space.
      The split has 501 pieces, the last one empty, so the second chunk is
      empty. */
  lemma {:induction false} FiveHundredWordsAndASpace(ws: seq<string>)
    requires |ws| == WindowSize
    requires forall i :: 0 <= i < |ws| ==> ws[i] != "" && NoneOf(ws[i], IsSpace)
    ensures var text := Join(ws + [""], " ");
      SplitWords(text) == ws + [""]
      && |ChunksFor(SplitWords(text))| == 2
      && ChunksFor(SplitWords(text))[1].text == ""
  {
    var pieces := ws + [""];
    forall i | 0 <= i < |pieces| ensures NoneOf(pieces[i], IsSpace) && (0 < i < |pieces| - 1 ==> pieces[i] != "") {
      if i < |ws| { assert pieces[i] == ws[i]; }
    }
    SplitRunsJoin(pieces, ' ', IsSpace);
    var text := Join(pieces, " ");
    JoinAppend(ws, [""], " ");
    JoinStartsWith(ws, " ");
    assert text == Join(ws, " ") + " ";
    assert text[|text| - 1] == ' ';
    TrailingSpaceEmptyChunk(text);
  }

  // ---------------------------------------------------------------------------
  // Upload

  datatype UploadError = NoFile | InvalidType | ParseFailed | StorageFailed | ValidationFailed

  /** The multipart file, reduced to the field the route stores. */
  datatype UploadedFile = UploadedFile(originalName: string)

  /** What the PDF parser returned: an exception, or a result whose `text`
      may be missing. */
  datatype ParseOutcome = ParseError | Parsed(text: Option<string>)

  /** What the file store returned: an error, or the stored file's URL. */
  datatype StoreOutcome = StoreError | Stored(secureUrl: string)

  /** `['resume', 'jd'].includes(type)`; a missing field is rejected too. */
  function RequestedType(typeField: Option<string>): (r: Option<DocType>)
    ensures r.Some? <==> typeField == Some("resume") || typeField == Some("jd")
    ensures r.Some? ==> typeField == Some(DocTypeName(r.value))
  {
    if typeField.Some? then ParseDocType(typeField.value) else None
  }

  /** `data.text || ''`. */
  function ExtractedText(text: Option<string>): string {
    if text.Some? then text.value else ""
  }

  /** The upload route: the file check, then the type check, then the parse,
      the chunker, the store and the save with schema validation. The type is
      checked before the parser runs, so a bad type is reported whatever the
      file holds. */
  method Upload(file: Option<UploadedFile>, typeField: Option<string>, parse: ParseOutcome,
                store: StoreOutcome, user: UserId, id: DocId, now: int)
    returns (r: Result<Document, UploadError>)
    ensures file.None? ==> r == Failure(NoFile)
    ensures file.Some? && RequestedType(typeField).None? ==> r == Failure(InvalidType)
    ensures r == Failure(ParseFailed)
        <==> file.Some? && RequestedType(typeField).Some? && parse.ParseError?
    ensures r == Failure(StorageFailed)
        <==> file.Some? && RequestedType(typeField).Some? && parse.Parsed? && store.StoreError?
    ensures r.Success? <==>
        file.Some? && RequestedType(typeField).Some? && parse.Parsed? && store.Stored?
        && ValidDocument(Document(id, user, RequestedType(typeField).value, file.value.originalName,
                                  store.secureUrl, ChunksFor(SplitWords(ExtractedText(parse.text))), now))
    ensures r.Success? ==>
        r.value == Document(id, user, RequestedType(typeField).value, file.value.originalName,
                            store.secureUrl, ChunksFor(SplitWords(ExtractedText(parse.text))), now)
  {
    if file.None? {
      return Failure(NoFile);
    }
    var docType := RequestedType(typeField);
    if docType.None? {
      return Failure(InvalidType);
    }
    if parse.ParseError? {
      return Failure(ParseFailed);
    }
    var text := ExtractedText(parse.text);
    var words := SplitWords(text);
    var chunks := ChunkText(words);
    if store.StoreError? {
      return Failure(StorageFailed);
    }
    var document := Document(id, user, docType.value, file.value.originalName, store.secureUrl, chunks, now);
    if !ValidDocument(document) {
      return Failure(ValidationFailed);
    }
    return Success(document);
  }

  /** A PDF with no text, or with empty text, gives one chunk with empty
      text, which the save rejects. */
  lemma {:induction false} EmptyPdfRejected(file: UploadedFile, t: DocType, user: UserId, id: DocId,
                                            url: string, now: int, text: Option<string>)
    requires text == None || text == Some("")
    ensures !ValidDocument(Document(id, user, t, file.originalName, url, ChunksFor(SplitWords(ExtractedText(text))), now))
  {
    EmptyTextOneChunk();
    assert ExtractedText(text) == "";
  }

  /** A text that is not blank, a file name and a URL are all a save needs. */
  lemma {:induction false} UploadValid(user: UserId, t: DocType, name: string, url: string,
                                       text: string, id: DocId, now: int)
    requires name != "" && url != "" && !IsBlank(text)
    ensures ValidDocument(Document(id, user, t, name, url, ChunksFor(Words(text)), now))
  {
    ChunksOfTextValid(text);
  }

  // ---------------------------------------------------------------------------
  // Queries over the collection

  /** `Document.find({ userId })`, in stored order. */
  function OwnedBy(docs: seq<Document>, user: UserId): (r: seq<Document>)
    ensures forall i :: 0 <= i < |r| ==> r[i] in docs && r[i].userId == user
    ensures forall d :: d in docs && d.userId == user ==> d in r
  {
    if docs == [] then []
    else (if docs[0].userId == user then [docs[0]] else []) + OwnedBy(docs[1..], user)
  }

  /** `Document.findOne({ userId, type })`: the first stored match. */
  function FindByType(docs: seq<Document>, user: UserId, t: DocType): (r: Option<Document>)
    ensures r.Some? ==> r.value in docs && r.value.userId == user && r.value.docType == t
    ensures r.None? <==> forall d :: d in docs ==> !(d.userId == user && d.docType == t)
  {
    if docs == [] then None
    else if docs[0].userId == user && docs[0].docType == t then Some(docs[0])
    else FindByType(docs[1..], user, t)
  }

  /** Index of the first document satisfying `p`. */
  function FirstWhere(docs: seq<Document>, p: Document -> bool): (r: Option<nat>)
    ensures r.Some? ==> r.value < |docs| && p(docs[r.value])
    ensures r.Some? ==> forall i :: 0 <= i < r.value ==> !p(docs[i])
    ensures r.None? ==> forall i :: 0 <= i < |docs| ==> !p(docs[i])
  {
    if docs == [] then None
    else if p(docs[0]) then Some(0)
    else
      var r := FirstWhere(docs[1..], p);
      if r.None? then None else Some(r.value + 1)
  }

  /** The fields the list route selects (the id comes along by default). */
  datatype DocumentSummary = DocumentSummary(id: DocId, docType: DocType, filename: string,
                                             url: string, createdAt: int)

  function Summarize(d: Document): DocumentSummary {
    DocumentSummary(d.id, d.docType, d.filename, d.url, d.createdAt)
  }

  function CreatedKey(s: DocumentSummary): real {
    s.createdAt as real
  }

  /** The list route: the owner's documents, newest first. The store does not
      promise an order among equal timestamps; this is the stable one. */
  function ListDocuments(docs: seq<Document>, user: UserId): (r: seq<DocumentSummary>)
    ensures multiset(r) == multiset(Map(Summarize, OwnedBy(docs, user)))
    ensures forall i, j :: 0 <= i < j < |r| ==> r[i].createdAt >= r[j].createdAt
  {
    var r := SortDesc(Map(Summarize, OwnedBy(docs, user)), CreatedKey);
    assert forall i, j :: 0 <= i < j < |r| ==> CreatedKey(r[i]) >= CreatedKey(r[j]);
    r
  }

  /** Every listed entry is a summary of one of the owner's documents, and
      every one of the owner's documents is listed. */
  lemma {:induction false} ListedAreOwned(docs: seq<Document>, user: UserId)
    ensures forall s :: s in ListDocuments(docs, user) <==>
      exists d :: d in docs && d.userId == user && s == Summarize(d)
  {
    forall s ensures s in ListDocuments(docs, user) <==> exists d :: d in docs && d.userId == user && s == Summarize(d) {
      if s in ListDocuments(docs, user) {
        ListedIsOwned(docs, user, s);
      }
      if exists d :: d in docs && d.userId == user && s == Summarize(d) {
        var d :| d in docs && d.userId == user && s == Summarize(d);
        OwnedIsListed(docs, user, d);
      }
    }
  }

  lemma {:induction false} ListedIsOwned(docs: seq<Document>, user: UserId, s: DocumentSummary)
    requires s in ListDocuments(docs, user)
    ensures exists d :: d in docs && d.userId == user && s == Summarize(d)
  {
    var owned := OwnedBy(docs, user);
    var m := Map(Summarize, owned);
    assert s in multiset(m);
    var j := InMultiset(s, m);
    assert owned[j] in docs && owned[j].userId == user && s == Summarize(owned[j]);
  }

  lemma {:induction false} OwnedIsListed(docs: seq<Document>, user: UserId, d: Document)
    requires d in docs && d.userId == user
    ensures Summarize(d) in ListDocuments(docs, user)
  {
    var owned := OwnedBy(docs, user);
    var m := Map(Summarize, owned);
    assert d in owned;
    var j :| 0 <= j < |owned| && owned[j] == d;
    assert m[j] == Summarize(d);
    assert Summarize(d) in multiset(ListDocuments(docs, user));
  }

  // ---------------------------------------------------------------------------
  // Delete

  /** `url.split('/').pop().split('.')[0]`: the stored file's name without
      its extension. */
  function PublicId(url: string): (r: string)
    ensures '/' !in r && '.' !in r
  {
    var parts := SplitOn(url, '/');
    var last := parts[|parts| - 1];
    var pieces := SplitOn(last, '.');
    JoinStartsWith(pieces, ".");
    assert forall k :: 0 <= k < |pieces[0]| ==> pieces[0][k] == last[k];
    pieces[0]
  }

  /** What the delete route asks the file store to remove. */
  function DestroyTarget(url: string): (r: string)
    ensures |r| >= 10 && r[..10] == "documents/" && '/' !in r[10..]
  {
    "documents/" + PublicId(url)
  }

  /** Splitting after one more separator adds the separator-free tail as the
      final piece. */
  lemma {:induction false} SplitOnSnoc(a: string, c: char, b: string)
    requires c !in b
    ensures SplitOn(a + [c] + b, c) == SplitOn(a, c) + [b]
  {
    var ws := SplitOn(a, c) + [b];
    JoinAppend(SplitOn(a, c), [b], [c]);
    forall i | 0 <= i < |ws| ensures c !in ws[i] {
      if i < |ws| - 1 { assert ws[i] == SplitOn(a, c)[i]; }
    }
    SplitOnJoin(ws, c);
  }

  /** For a URL laid out as `<base>/<name>.<ext>`, the public id is `name`, and
      the dotless `<base>/<name>` gives `name` too. */
  lemma {:induction false} PublicIdOfUrl(base: string, name: string, ext: string)
    requires '/' !in name && '.' !in name && '/' !in ext
    ensures PublicId(base + "/" + name + "." + ext) == name
    ensures PublicId(base + "/" + name) == name
  {
    var rest := name + "." + ext;
    assert '/' !in rest;
    assert base + "/" + name + "." + ext == base + ['/'] + rest;
    SplitOnSnoc(base, '/', rest);
    var tail := SplitOn(ext, '.');
    var ws := [name] + tail;
    assert ws[1..] == tail;
    assert Join(ws, ".") == name + "." + ext;
    forall i | 0 <= i < |ws| ensures '.' !in ws[i] {
      if i > 0 { assert ws[i] == tail[i - 1]; }
    }
    SplitOnJoin(ws, '.');
    assert base + "/" + name == base + ['/'] + name;
    SplitOnSnoc(base, '/', name);
    SplitOnJoin([name], '.');
  }

  datatype DeleteError = NotFound

  /** The `findOne` filter `{ _id, userId }`. */
  function OwnedWithId(id: DocId, user: UserId): Document -> bool {
    (d: Document) => d.id == id && d.userId == user
  }

  /** The `findByIdAndDelete` filter `{ _id }`. */
  function HasId(id: DocId): Document -> bool {
    (d: Document) => d.id == id
  }

  /** The delete route: `findOne({ _id, userId })`, a 404 when the caller
      does not own such a document, else the store target to destroy and the
      collection after `findByIdAndDelete`. */
  function DeleteDocument(docs: seq<Document>, id: DocId, user: UserId)
    : (r: Result<(seq<Document>, string), DeleteError>)
    ensures r.Failure? <==> forall i :: 0 <= i < |docs| ==> !(docs[i].id == id && docs[i].userId == user)
  {
    var owned := FirstWhere(docs, OwnedWithId(id, user));
    if owned.None? then Failure(NotFound)
    else
      var byId := FirstWhere(docs, HasId(id));
      var k := byId.value;
      Success((docs[..k] + docs[k + 1..], DestroyTarget(docs[owned.value].url)))
  }

  /** Stored ids are unique. */
  predicate UniqueIds(docs: seq<Document>) {
    forall i, j :: 0 <= i < j < |docs| ==> docs[i].id != docs[j].id
  }

  /** A delete the caller is entitled to removes exactly the owned document
      with that id, keeps every other document in order, and destroys the
      stored file of the removed document. */
  lemma {:induction false} DeleteRemovesOne(docs: seq<Document>, id: DocId, user: UserId, k: nat)
    requires UniqueIds(docs) && k < |docs| && docs[k].id == id && docs[k].userId == user
    ensures DeleteDocument(docs, id, user) == Success((docs[..k] + docs[k + 1..], DestroyTarget(docs[k].url)))
    ensures forall d :: d in DeleteDocument(docs, id, user).value.0 ==> d.id != id
  {
    var owned := FirstWhere(docs, OwnedWithId(id, user));
    var byId := FirstWhere(docs, HasId(id));
    assert owned.value == k;
    assert byId.value == k;
    forall d | d in docs[..k] + docs[k + 1..] ensures d.id != id {
      var j :| 0 <= j < |docs[..k] + docs[k + 1..]| && (docs[..k] + docs[k + 1..])[j] == d;
      if j < k { assert d == docs[j]; } else { assert d == docs[j + 1]; }
    }
  }

  /** Another user's document is never found, so the collection is left as it
      is. */
  lemma {:induction false} DeleteOthersDocument(docs: seq<Document>, id: DocId, user: UserId)
    requires UniqueIds(docs)
    requires exists k :: 0 <= k < |docs| && docs[k].id == id && docs[k].userId != user
    ensures DeleteDocument(docs, id, user) == Failure(NotFound)
  {
  }
}
