/**
 * The retrieval-augmented answer step of `RAGPipeline`: choose how many
 * passages to retrieve, build the grounded prompt, normalise the generation
 * model's reply and package the sources.  The vector store and the
 * generation model are oracles passed in as functions.
 */
module Pipeline {
  import opened Wrappers
  import opened Text

  /** A value in a passage's metadata (source file name, page number, ...). */
  datatype MetaValue = Str(s: string) | Int(i: int)

  /** A retrieved document chunk, and also the shape of one entry of `sources`. */
  datatype Passage = Passage(pageContent: string, metadata: map<string, MetaValue>)

  /**
   * What the generation model's `invoke` returns: a message object with a
   * `content` attribute, or any other value, seen through `str(...)`.
   */
  datatype Reply = Message(content: string) | Other(str: string)

  /** `vectorstore.similarity_search(question, k=k)`. */
  type Retriever = (string, int) -> seq<Passage>

  /** `llm.invoke(prompt)` of the generation model. */
  type Generator = string -> Reply

  /** The metadata `ask` returns: `num_sources` and `sources`. */
  datatype Meta = Meta(numSources: int, sources: seq<Passage>)

  /** `settings.top_k`. */
  const DefaultTopK: int := 5

  /** Length of the text preview kept in each source. */
  const PreviewLength: nat := 300

  /** Separator between passages in a context block. */
  const ContextSeparator: string := "\n\n"

  const SystemTemplate: string :=
    "\nYou are a Customer Support Chatbot for Everstorm Outfitters.\n"
    + "Use only the information in <context> to answer.\n\n"
    + "Rules:\n"
    + "1) Use ONLY the provided <context> to answer.\n"
    + "2) If the answer is not in the context, say:\n"
    + "   \"I don't know based on the retrieved documents.\"\n"
    + "3) Be concise and accurate. Prefer quoting key phrases from the context.\n"

  /** Everything of the prompt that comes before the context block. */
  const PromptHead: string := SystemTemplate + "\n\n<context>\n"

  /** The texts of the passages, in retrieval order. */
  function Texts(docs: seq<Passage>): (r: seq<string>)
    ensures |r| == |docs|
    ensures forall i :: 0 <= i < |docs| ==> r[i] == docs[i].pageContent
  {
    seq(|docs|, i requires 0 <= i < |docs| => docs[i].pageContent)
  }

  /**
   * `"\n\n".join(d.page_content for d in docs)`: empty without passages,
   * otherwise it opens with the first passage's text and closes with the last's.
   */
  function Context(docs: seq<Passage>): (r: string)
    ensures docs == [] ==> r == ""
    ensures |docs| >= 1 ==> OccursAt(r, docs[0].pageContent, 0)
    ensures |docs| >= 1 ==> OccursAt(r, docs[|docs| - 1].pageContent, |r| - |docs[|docs| - 1].pageContent|)
  {
    if docs == [] then Join(ContextSeparator, Texts(docs))
    else
      JoinLayout(ContextSeparator, Texts(docs), 0);
      JoinLayout(ContextSeparator, Texts(docs), |docs| - 1);
      Join(ContextSeparator, Texts(docs))
  }

  /** What closes the context block and introduces the question. */
  const QuestionLead: string := "\n</context>\n\nUser question: "

  /** Everything of the prompt that comes after the context block. */
  function PromptTail(question: string): string {
    QuestionLead + question + "\n"
  }

  /**
   * `_build_prompt`: the context block sits right after the system template
   * and the `<context>` tag, and the user question ends the prompt, before
   * its final line break.
   */
  function BuildPrompt(question: string, docs: seq<Passage>): (p: string)
    ensures OccursAt(p, Context(docs), |PromptHead|)
    ensures OccursAt(p, question, |p| - |question| - 1)
  {
    var ctx := Context(docs);
    MiddlePiece(PromptHead, ctx, PromptTail(question));
    MiddlePiece(PromptHead + ctx + QuestionLead, question, "\n");
    assert PromptHead + ctx + PromptTail(question) == PromptHead + ctx + QuestionLead + question + "\n";
    PromptHead + ctx + PromptTail(question)
  }

  /**
   * The prompt starts with the system template, holds the i-th passage's
   * text at its place in the context block, in retrieval order with a blank
   * line between neighbours, and ends with the question.  It depends on the
   * passages only through their texts.
   */
  lemma PromptLayout(question: string, docs: seq<Passage>, i: nat)
    requires i < |docs|
    ensures BuildPrompt(question, docs)[..|PromptHead|] == PromptHead
    ensures OccursAt(BuildPrompt(question, docs), docs[i].pageContent,
                     |PromptHead| + JoinOffset(ContextSeparator, Texts(docs), i))
    ensures i + 1 < |docs| ==>
      OccursAt(BuildPrompt(question, docs), ContextSeparator,
               |PromptHead| + JoinOffset(ContextSeparator, Texts(docs), i) + |docs[i].pageContent|)
    ensures BuildPrompt(question, docs)[|BuildPrompt(question, docs)| - |PromptTail(question)|..]
         == PromptTail(question)
  {
    FramedJoinLayout(PromptHead, ContextSeparator, Texts(docs), PromptTail(question), i);
  }

  /** Passages with the same texts give the same prompt: metadata never reaches the model. */
  lemma PromptIgnoresMetadata(question: string, docs1: seq<Passage>, docs2: seq<Passage>)
    requires |docs1| == |docs2|
    requires forall i :: 0 <= i < |docs1| ==> docs1[i].pageContent == docs2[i].pageContent
    ensures BuildPrompt(question, docs1) == BuildPrompt(question, docs2)
  {
    assert Texts(docs1) == Texts(docs2);
  }

  /** `k = top_k or settings.top_k`: `None` and `0` are falsy and fall back to the default. */
  function ResolveK(topK: Option<int>): (k: int)
    ensures k != 0
    ensures topK == None || topK == Some(0) ==> k == DefaultTopK
    ensures topK.Some? && topK.value != 0 ==> k == topK.value
  {
    match topK
    case Some(v) => if v != 0 then v else DefaultTopK
    case None => DefaultTopK
  }

  /**
   * `raw.content` when the reply has that attribute, otherwise `str(raw)`:
   * the text the reply carries, whichever form it takes.
   */
  function ReplyText(raw: Reply): (t: string)
    ensures raw == Message(t) || raw == Other(t)
  {
    match raw
    case Message(content) => content
    case Other(str) => str
  }

  /** The text is recovered from either form of reply, unchanged. */
  lemma ReplyTextOfEitherForm(s: string)
    ensures ReplyText(Message(s)) == s && ReplyText(Other(s)) == s
  {
  }

  /** One entry of `sources`: the first 300 characters of the text, the metadata as is. */
  function Preview(d: Passage): (p: Passage)
    ensures p.metadata == d.metadata
    ensures |p.pageContent| == if |d.pageContent| <= PreviewLength then |d.pageContent| else PreviewLength
    ensures p.pageContent == d.pageContent[..|p.pageContent|]
  {
    Passage(Truncate(d.pageContent, PreviewLength), d.metadata)
  }

  /** The `sources` list: one preview per retrieved passage, in retrieval order. */
  function Sources(docs: seq<Passage>): (r: seq<Passage>)
    ensures |r| == |docs|
    ensures forall i :: 0 <= i < |docs| ==> r[i] == Preview(docs[i])
  {
    seq(|docs|, i requires 0 <= i < |docs| => Preview(docs[i]))
  }

  /** A passage no longer than the preview length appears in `sources` unchanged. */
  lemma ShortPassageUnchanged(d: Passage)
    requires |d.pageContent| <= PreviewLength
    ensures Preview(d) == d
  {
  }

  /**
   * `RAGPipeline.ask`: retrieve `ResolveK(topK)` passages for the question,
   * ask the generation model with the grounded prompt, and return its answer
   * with `num_sources` and the source previews.  `chatHistory` and
   * `temperature` are accepted and not used.
   */
  function Ask(question: string, chatHistory: seq<(string, string)>, topK: Option<int>,
               temperature: Option<real>, retrieve: Retriever, generate: Generator): (r: (string, Meta))
    ensures var docs := retrieve(question, ResolveK(topK));
      && r.1.numSources == |r.1.sources| == |docs|
      && (forall i :: 0 <= i < |docs| ==> r.1.sources[i] == Preview(docs[i]))
      && r.0 == ReplyText(generate(BuildPrompt(question, docs)))
  {
    var k := ResolveK(topK);
    var docs := retrieve(question, k);
    var prompt := BuildPrompt(question, docs);
    var answer := ReplyText(generate(prompt));
    (answer, Meta(|docs|, Sources(docs)))
  }

  /** An empty retrieval gives an empty context, no sources and `num_sources == 0`. */
  lemma EmptyRetrieval(question: string, chatHistory: seq<(string, string)>, topK: Option<int>,
                       temperature: Option<real>, retrieve: Retriever, generate: Generator)
    requires retrieve(question, ResolveK(topK)) == []
    ensures Context(retrieve(question, ResolveK(topK))) == ""
    ensures var r := Ask(question, chatHistory, topK, temperature, retrieve, generate);
      r.1 == Meta(0, []) && r.0 == ReplyText(generate(PromptHead + PromptTail(question)))
  {
    var docs := retrieve(question, ResolveK(topK));
    assert Texts(docs) == [];
    assert Context(docs) == "";
    assert BuildPrompt(question, docs) == PromptHead + "" + PromptTail(question);
    assert PromptHead + "" == PromptHead;
  }

  /** Chat history and temperature have no effect on what `ask` returns. */
  lemma AskIgnoresHistoryAndTemperature(question: string, topK: Option<int>,
                                        h1: seq<(string, string)>, t1: Option<real>,
                                        h2: seq<(string, string)>, t2: Option<real>,
                                        retrieve: Retriever, generate: Generator)
    ensures Ask(question, h1, topK, t1, retrieve, generate) == Ask(question, h2, topK, t2, retrieve, generate)
  {
  }

  /** A `top_k` of `None` and one of `0` both retrieve with the default of 5. */
  lemma FalsyTopKUsesDefault(question: string, h: seq<(string, string)>, t: Option<real>,
                             retrieve: Retriever, generate: Generator)
    ensures Ask(question, h, None, t, retrieve, generate) == Ask(question, h, Some(0), t, retrieve, generate)
                                                          == Ask(question, h, Some(5), t, retrieve, generate)
  {
  }
}
