/**
  `chatWithPDF`: the question is embedded, the collection is queried for the
  nearest chunks, the citations are read off the metadata of the first (and
  only) query's results, the documents of that query are joined into the
  context of a fixed prompt, and the chat model's first choice is returned
  together with the citations. Any failure along the way ends in one and the
  same response, status 500 with a fixed error message.
*/
module Chat {
  import opened Wrappers
  import opened JsText
  import opened Provider

  /** The `nResults` passed to the query. */
  const NResults: nat := 5
  const ChatModel: string := "gpt-4"
  const Temperature: real := 0.2
  const Newline: char := '\n'

  /** A metadata slot of a query result: `null`, or an object whose `page`
      field may be missing (read as `undefined`). */
  datatype Metadata = NullMetadata | Record(page: Option<int>)

  /** A query result: one list of documents and one list of metadata per
      query embedding, best match first. */
  datatype QueryResult = QueryResult(documents: seq<seq<string>>, metadatas: seq<seq<Metadata>>)

  /** The request sent to the chat-completion service: one user message. */
  datatype ChatRequest = ChatRequest(model: string, role: string, content: string, temperature: real)

  /** A citation as it appears in the response: a page number, or
      `undefined` when the metadata object had no `page`. */
  type Citation = Option<int>

  datatype Response =
    | Answered(answer: string, citations: seq<Citation>)
    | ServerError(status: nat, error: string)

  /** The single failure response, whatever went wrong. */
  const ChatFailure: Response := ServerError(500, "Failed to process chat")

  /** `metadatas.map(meta => meta.page)`: fails (a `TypeError`) exactly when
      some slot is `null`; otherwise element `j` is the `page` of slot `j`. */
  function Citations(metas: seq<Metadata>): (r: Option<seq<Citation>>)
    ensures r.Some? <==> forall j :: 0 <= j < |metas| ==> metas[j].Record?
    ensures r.Some? ==> |r.value| == |metas| && forall j :: 0 <= j < |metas| ==> r.value[j] == metas[j].page
  {
    if metas == [] then Some([])
    else if metas[0].NullMetadata? then None
    else
      match Citations(metas[1..])
      case None => None
      case Some(rest) => Some([metas[0].page] + rest)
  }

  /** The text of the prompt before the context, with the instruction to
      cite pages as `[Page X]`. */
  const Instruction: string := "You are reading a PDF. Answer the question based on the context below. Include page citations as [Page X]."
  const PromptHead: string := Instruction + "\n\nContext:\n"
  const QuestionLabel: string := "\n\nQuestion: "

  /** The prompt template filled with a context and a question: it opens
      with the instruction and the `Context:` label and closes with the
      question and a newline. */
  function Prompt(context: string, question: string): (r: string)
    ensures |r| == |PromptHead| + |context| + |QuestionLabel| + |question| + 1
    ensures r[..|PromptHead|] == PromptHead
    ensures r[|r| - |question| - 1..] == question + "\n"
  {
    PromptHead + context + QuestionLabel + question + "\n"
  }

  /** Citations and prompt built from a query result, i.e. the part of
      `chatWithPDF` between the query and the chat call. */
  datatype Grounding = Grounding(citations: seq<Citation>, prompt: string)

  /** Reads `documents[0]` and `metadatas[0]`; taking `metadatas[0]` of an
      empty list, mapping a `null` slot, or joining `documents[0]` of an
      empty list throws. */
  function Ground(result: QueryResult, question: string): (r: Option<Grounding>)
    ensures r.Some? <==>
              && |result.metadatas| > 0
              && (forall j :: 0 <= j < |result.metadatas[0]| ==> result.metadatas[0][j].Record?)
              && |result.documents| > 0
    ensures r.Some? ==>
              && |r.value.citations| == |result.metadatas[0]|
              && (forall j :: 0 <= j < |result.metadatas[0]| ==> r.value.citations[j] == result.metadatas[0][j].page)
              && r.value.prompt == Prompt(Join(result.documents[0], Newline), question)
  {
    if |result.metadatas| == 0 then None
    else
      match Citations(result.metadatas[0])
      case None => None
      case Some(pages) =>
        if |result.documents| == 0 then None
        else Some(Grounding(pages, Prompt(Join(result.documents[0], Newline), question)))
  }

  /** The request `chatWithPDF` sends for a prompt: the prompt as the
      content of a single user message, to `gpt-4` at temperature 0.2. */
  function Request(prompt: string): (r: ChatRequest)
    ensures r.content == prompt && r.role == "user"
    ensures r.model == "gpt-4" && r.temperature == 0.2
  {
    ChatRequest(ChatModel, "user", prompt, Temperature)
  }

  /** `chatWithPDF` with the remote services as parameters: `embed` is
      `getEmbedding`, `query` is fetching the collection and querying it
      with an embedding and `nResults` (`None` when either rejects), and
      `complete` is the chat-completion call, giving the message contents of
      its choices (`None` when it rejects). */
  function ChatWithPDF(
    question: string,
    embed: string -> Embedding,
    query: (Vector, nat) -> Option<QueryResult>,
    complete: ChatRequest -> Option<seq<string>>): (r: Response)
    ensures r.ServerError? ==> r == ChatFailure
  {
    match embed(question)
    case Failed(_) => ChatFailure
    case Embedded(v) =>
      match query(v, NResults)
      case None => ChatFailure
      case Some(result) =>
        match Ground(result, question)
        case None => ChatFailure
        case Some(g) =>
          match complete(Request(g.prompt))
          case None => ChatFailure
          case Some(choices) =>
            if |choices| == 0 then ChatFailure
            else Answered(choices[0], g.citations)
  }

  /** The response is an answer exactly when every step succeeds: the
      question embeds, the query returns, its first metadata list has no
      `null` slot, it has a first document list, and the chat call returns
      at least one choice. The answer is then the first choice and the
      citations are the pages of the first metadata list, in ranked order. */
  lemma AnsweredIff(
    question: string,
    embed: string -> Embedding,
    query: (Vector, nat) -> Option<QueryResult>,
    complete: ChatRequest -> Option<seq<string>>)
    ensures var r := ChatWithPDF(question, embed, query, complete);
            r.Answered? <==>
              && embed(question).Embedded?
              && query(embed(question).vector, NResults).Some?
              && var res := query(embed(question).vector, NResults).value;
              && |res.metadatas| > 0
              && (forall j :: 0 <= j < |res.metadatas[0]| ==> res.metadatas[0][j].Record?)
              && |res.documents| > 0
              && var choices := complete(Request(Prompt(Join(res.documents[0], Newline), question)));
              && choices.Some? && |choices.value| > 0
              && r.answer == choices.value[0]
              && |r.citations| == |res.metadatas[0]|
              && forall j :: 0 <= j < |res.metadatas[0]| ==> r.citations[j] == res.metadatas[0][j].page
  {
  }

  /** Only the first query's lists matter: two results that agree on
      `documents[0]` and `metadatas[0]` give the same response. */
  lemma OnlyFirstListsUsed(
    question: string,
    embed: string -> Embedding,
    query1: (Vector, nat) -> Option<QueryResult>,
    query2: (Vector, nat) -> Option<QueryResult>,
    complete: ChatRequest -> Option<seq<string>>)
    requires embed(question).Embedded?
    requires var v := embed(question).vector;
             && query1(v, NResults).Some? && query2(v, NResults).Some?
             && var a, b := query1(v, NResults).value, query2(v, NResults).value;
             && |a.documents| > 0 && |b.documents| > 0 && a.documents[0] == b.documents[0]
             && |a.metadatas| > 0 && |b.metadatas| > 0 && a.metadatas[0] == b.metadatas[0]
    ensures ChatWithPDF(question, embed, query1, complete) == ChatWithPDF(question, embed, query2, complete)
  {
  }

  /** The citations do not depend on what the chat model writes: with any
      two chat services that both give an answer, the citations agree. */
  lemma CitationsIgnoreAnswer(
    question: string,
    embed: string -> Embedding,
    query: (Vector, nat) -> Option<QueryResult>,
    complete1: ChatRequest -> Option<seq<string>>,
    complete2: ChatRequest -> Option<seq<string>>)
    requires ChatWithPDF(question, embed, query, complete1).Answered?
    requires ChatWithPDF(question, embed, query, complete2).Answered?
    ensures ChatWithPDF(question, embed, query, complete1).citations ==
            ChatWithPDF(question, embed, query, complete2).citations
  {
  }

  /** Layout of the prompt: the instruction with `[Page X]`, then the
      context verbatim, then the question verbatim, then a final newline. */
  lemma PromptLayout(context: string, question: string)
    ensures var p := Prompt(context, question);
            var c := |PromptHead|;
            var q := c + |context| + |QuestionLabel|;
            && |p| == q + |question| + 1
            && p[..|Instruction|] == Instruction
            && p[c..c + |context|] == context
            && p[c + |context|..q] == QuestionLabel
            && p[q..q + |question|] == question
            && p[|p| - 1] == '\n'
  {
    var p := Prompt(context, question);
    assert p == PromptHead + (context + (QuestionLabel + (question + "\n")));
  }

  /** The fixed instruction carries the citation pattern `[Page X]`. */
  lemma InstructionAsksForPageCitations()
    ensures Instruction[|Instruction| - 9..|Instruction| - 1] == "[Page X]"
  {
  }

  /** Among contexts of one length, the prompt determines both the context
      and the question. Without that condition it does not: a context may
      itself contain the question label. */
  lemma PromptInjective(c1: string, q1: string, c2: string, q2: string)
    requires |c1| == |c2|
    requires Prompt(c1, q1) == Prompt(c2, q2)
    ensures c1 == c2 && q1 == q2
  {
    PromptLayout(c1, q1);
    PromptLayout(c2, q2);
  }

  /** The context holds every retrieved document in ranked order, each one
      followed by a single newline except the last. */
  lemma ContextHoldsDocuments(documents: seq<string>, j: nat)
    requires j < |documents|
    ensures var context := Join(documents, Newline);
            var o := JoinOffset(documents, j);
            && o + |documents[j]| <= |context|
            && context[o..o + |documents[j]|] == documents[j]
            && (j + 1 < |documents| ==> o + |documents[j]| < |context| && context[o + |documents[j]|] == Newline)
  {
    JoinPieceAt(documents, Newline, j);
  }

  /** With exactly one document, the context is that document and nothing
      else; with none, it is empty. */
  lemma ContextOfFewDocuments(documents: seq<string>)
    requires |documents| <= 1
    ensures Join(documents, Newline) == if documents == [] then "" else documents[0]
  {
  }

  /** When no retrieved document contains a newline itself, the documents can
      be read back from the context. */
  lemma ContextRecoversDocuments(documents: seq<string>)
    requires |documents| >= 1
    requires forall i :: 0 <= i < |documents| ==> Newline !in documents[i]
    ensures Split(Join(documents, Newline), Newline) == documents
  {
    SplitJoin(documents, Newline);
  }
}
