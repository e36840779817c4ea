# Everstorm support chatbot: answer pipeline, judge loop, retrieval metrics and chat history in Dafny

This project models the core of a retrieval-augmented customer-support chatbot
and proves properties of that model.

- `pipeline.dfy` (module `Pipeline`) models `RAGPipeline`. `ask` picks how many
  passages to retrieve (`top_k or settings.top_k`). `_build_prompt` builds the
  grounded prompt: the system instructions, the passages joined by blank lines
  inside `<context>`, then the user question. `ask` then reads the generation
  model's reply and packages `num_sources` and 300-character source previews.
- `evaluator.dfy` (module `Evaluator`) models `InlineLLMJudge`. It covers
  `CritiqueResult`, the critic prompt and `evaluate_answer`.
  - `evaluate_answer` answers the question once through `ask`.
  - It then asks a judge model, cycle after cycle, whether that fixed answer is
    CORRECT, a HALLUCINATION or INCOMPLETE.
  - Each reply is normalised: stripped, upper-cased, and cut after the last
    `LABEL:` marker.
  - Streak counters of HALLUCINATION and INCOMPLETE are kept.
  - The loop stops at the first CORRECT, at the second HALLUCINATION (or
    INCOMPLETE) in a row, or when the cycle budget runs out (MAX_CYCLES).
  - The loop is an imperative method (`CritiqueCycles`, with `JudgeCycle` for
    one judge call). It is proved equal to a declarative specification
    (`Outcome`) that names the first stopping cycle. Lemmas about `Outcome`
    then state what each label means.
- `eval_metrics.dfy` (module `EvalMetrics`) models `hit_rate_at_k`,
  `mrr_at_k` (as a recursive first-match search) and `precision_at_k`. It keeps
  Python's slice semantics for every `k`, including negative ones.
- `chat_history.dfy` (module `ChatHistory`) models the chat front end's loop
  that turns the message log into (question, answer) pairs. It is a method with
  a `while` loop, proved against a fold (`Replay`). Lemmas about the fold say
  which pairs come out.
- `text.dfy` (module `Text`) holds the Python string operations the core uses:
  - `strip()`, `upper()`, `in`, `split(sep)[-1]`, `"\n\n".join` and `s[:n]`;
  - their layout and round-trip lemmas.
- `wrappers.dfy` holds `Option`.

The vector store, the generation model and the judge model are oracles passed in
as function values:
- `Retriever`: `similarity_search(question, k)`.
- `Generator`: `llm.invoke(prompt)`.
- `JudgeModel`: `judge(c, p)` is the reply to the c-th judge call, made with
  prompt `p`.

The judge model is an Ollama text model, whose `invoke` returns a string, so
`str(feedback_raw)` is that string.

## Model

| member | source | states |
|---|---|---|
| Text.Strip | rag/evaluator.py:72 | `strip()` gives a text with no whitespace at either end. It is the slice of the input between the first and the last non-whitespace character, and only whitespace was cut on each side. |
| Text.WhitespaceCharacters | rag/evaluator.py:72 | The whitespace `strip()` removes includes space, tab, line feed, vertical tab, form feed, carriage return and the separators 0x1C to 0x1F. No visible ASCII character (`!` to `~`) counts as whitespace. |
| Text.StripOfTrimmed | rag/evaluator.py:72 | Stripping a text that has no surrounding whitespace leaves it unchanged. |
| Text.Upper | rag/evaluator.py:72 | `upper()` keeps the length and upper-cases each character in place. It leaves no ASCII lower-case letter (`a` to `z`), is the identity on text without one, and keeps a trimmed text trimmed. |
| Text.Split | rag/evaluator.py:75 | `split(sep)` gives at least one piece, and no piece contains `sep`. Joining the pieces with `sep` gives back the input. |
| Text.LastPieceOfSplit | rag/evaluator.py:75 | `split(sep)[-1]` is the suffix of the input that starts at `LastPieceStart`. |
| Text.LastPieceAfterLastSep | rag/evaluator.py:74-75 | The input contains `sep` exactly when the last piece starts after 0. Then an occurrence of `sep` ends exactly where the last piece starts, and no occurrence starts at or after that point. |
| Text.Join | rag/pipeline.py:37 | Joining no parts gives the empty string, and joining one part gives that part without any separator. |
| Text.JoinLayout | rag/pipeline.py:37 | `sep.join(parts)` places `parts[i]` at its offset and follows it with `sep` unless it is the last part. The last part ends the string. |
| Text.Truncate | rag/pipeline.py:85 | `s[:n]` is the prefix of length `min(n, len(s))`. |
| Text.TruncateIdempotent | rag/pipeline.py:85 | Truncating twice is truncating once. A text no longer than `n` is kept whole. |
| Pipeline.Texts | rag/pipeline.py:37 | The passage texts, one per passage, in retrieval order. |
| Pipeline.Context | rag/pipeline.py:37 | The context block is empty without passages. Otherwise it starts with the first passage's text and ends with the last passage's text. |
| Pipeline.BuildPrompt | rag/pipeline.py:33-46 | The context block sits right after the system template and the `<context>` tag. The question ends the prompt, followed only by its final line break. |
| Pipeline.PromptLayout | rag/pipeline.py:33-46 | The prompt starts with the system template and `<context>`. Passage `i`'s text sits at its place in the context block, followed by a blank line unless it is the last. The prompt ends with the question line. |
| Pipeline.PromptIgnoresMetadata | rag/pipeline.py:37 | Two retrievals with the same texts give the same prompt, whatever their metadata. |
| Pipeline.ResolveK | rag/pipeline.py:63 | `top_k or settings.top_k`: `None` and 0 give the default of 5, and any other value, negative ones included, is used as given. The result is never 0. |
| Pipeline.Preview | rag/pipeline.py:84-87 | A source entry keeps the metadata and the first `min(300, len)` characters of the text. |
| Pipeline.Sources | rag/pipeline.py:83-89 | `sources` has one preview per retrieved passage, in retrieval order. |
| Pipeline.ShortPassageUnchanged | rag/pipeline.py:85 | A passage of at most 300 characters appears in `sources` unchanged. |
| Pipeline.ReplyText | rag/pipeline.py:75-78 | The answer text is exactly the text the reply carries, whether the reply is a message with `content` or another value seen through `str`. |
| Pipeline.ReplyTextOfEitherForm | rag/pipeline.py:75-78 | A text is recovered unchanged from a message reply that carries it and from a plain reply that carries it. |
| Pipeline.Ask | rag/pipeline.py:48-91 | `num_sources` equals the number of sources and of retrieved passages. Each source is the preview of the matching passage. The answer is the reply text for the prompt built from exactly those passages. |
| Pipeline.EmptyRetrieval | rag/pipeline.py:66-91 | With no passages, the context is empty, `num_sources` is 0, there are no sources, and the model is asked with the bare template and question. |
| Pipeline.AskIgnoresHistoryAndTemperature | rag/pipeline.py:48-62 | The chat history and the temperature have no effect on what `ask` returns. |
| Pipeline.FalsyTopKUsesDefault | rag/pipeline.py:63 | `top_k=None` and `top_k=0` both behave as `top_k=5`. |
| Evaluator.CriticPrompt | rag/evaluator.py:26-44 | The critic prompt contains the base context, the answer and the `LABEL:` marker. |
| Evaluator.CriticPromptLayout | rag/evaluator.py:26-44 | The critic prompt shows the context at its fixed place, then the answer after the answer heading, and ends with the `LABEL:` line. |
| Evaluator.ReadLabel | rag/evaluator.py:74-75 | The `LABEL:` step leaves no `LABEL:` in the feedback. It keeps upper-case text upper-case and trimmed text trimmed. |
| Evaluator.ReadLabelKeepsTextAfterLastLabel | rag/evaluator.py:74-75 | Without `LABEL:` the feedback is kept whole. With it, only the stripped text after its last occurrence is kept. |
| Evaluator.LastPieceAfterLastLabel | rag/evaluator.py:75 | The last piece of `split("LABEL:")` starts right after the last occurrence of `LABEL:`, since the marker cannot overlap itself. |
| Evaluator.ReadLabelOfLabelled | rag/evaluator.py:74-75 | Feedback that holds `LABEL:` is cut to the stripped last piece of its split on `LABEL:`. |
| Evaluator.Normalise | rag/evaluator.py:71-75 | Normalised feedback is trimmed, has no ASCII lower-case letter and holds no `LABEL:`. |
| Evaluator.NormaliseIdempotent | rag/evaluator.py:71-75 | Normalising normalised feedback changes nothing. |
| Evaluator.IsCorrectText | rag/evaluator.py:80-82 | Feedback is correct exactly when it contains CORRECT and contains neither HALLUCINATION nor INCOMPLETE. The exact match `feedback == "CORRECT"` is one case of this. |
| Evaluator.IsHallucText | rag/evaluator.py:83 | Feedback that is exactly HALLUCINATION is not correct. |
| Evaluator.IsIncompleteText | rag/evaluator.py:84 | Feedback that is exactly INCOMPLETE is neither correct nor a hallucination. |
| Evaluator.VerdictsExclusive | rag/evaluator.py:80-84 | At most one of `is_correct`, `is_halluc` and `is_incomplete` holds for any feedback. |
| Evaluator.ClassificationIsAsymmetric | rag/evaluator.py:80-84 | Correctness is matched as a substring and the other verdicts only exactly. So "INCORRECT" and "CORRECT." count as correct, and "HALLUCINATION DETECTED" counts as nothing. |
| Evaluator.Streak | rag/evaluator.py:103-104 | A counter never exceeds the number of cycles run. It is positive exactly when the latest cycle gave its token. |
| Evaluator.StreakOfTwo | rag/evaluator.py:106-107 | A counter reaches 2 exactly when the last two cycles both gave its token. |
| Evaluator.StreaksExclusive | rag/evaluator.py:106-107 | The two streak counters are never both non-zero. |
| Evaluator.StopFromSpec | rag/evaluator.py:65-120 | The cycle the loop ends at: no earlier cycle stops, and it stops itself unless it is the last of the budget. |
| Evaluator.CycleCount | rag/evaluator.py:65 | No cycle runs exactly when `max_cycles <= 0`, and never more than `max_cycles` run. |
| Evaluator.CycleCountSpec | rag/evaluator.py:65-120 | Every cycle before the last one run did not stop, and the last one stopped unless the budget ran out. |
| Evaluator.Record | rag/evaluator.py:86-93 | The `CritiqueResult` of a cycle keeps the cycle number and the answer. `is_correct` is the correctness verdict on the feedback. The critique is absent exactly when the cycle was correct, and otherwise it is the feedback. |
| Evaluator.Records | rag/evaluator.py:86-93 | The records of cycles 1 to n, n of them. |
| Evaluator.RecordsAt | rag/evaluator.py:86-93 | Entry `i` of the records is the `CritiqueResult` of cycle `i + 1`. |
| Evaluator.Outcome | rag/evaluator.py:65-130 | The result keeps the answer and the sources, has one record per cycle run, and is MAX_CYCLES when no cycle ran. |
| Evaluator.OutcomeAtStop | rag/evaluator.py:95-120 | When cycle `k` is the first that stops, the result has that cycle's label (not MAX_CYCLES) and the records of cycles 1 to `k`. |
| Evaluator.OutcomeExhausted | rag/evaluator.py:125-130 | When no cycle of the budget stops, the result is MAX_CYCLES with one record per budgeted cycle. |
| Evaluator.OutcomeRecords | rag/evaluator.py:86-93 | The result keeps the answer and sources and has one record per cycle run, numbered from 1. A critique is present exactly when the cycle was not correct, and it is then the normalised feedback. Every cycle but the last was not correct. |
| Evaluator.OutcomeLabel | rag/evaluator.py:95-130 | The label is CORRECT exactly when the last cycle run was correct. It is HALLUCINATION or INCOMPLETE exactly when the last two cycles both gave that token. It is MAX_CYCLES exactly when the budget ran out (or was not positive) without either, and then the whole budget was used. |
| Evaluator.NoBudget | rag/evaluator.py:65 | With `max_cycles <= 0` no cycle runs, and the result is MAX_CYCLES with no records. |
| Evaluator.DefaultBudget | rag/evaluator.py:20 | With the default `max_cycles = 1` exactly one cycle runs, and the label is CORRECT or MAX_CYCLES, never a streak label. |
| Evaluator.TwoHallucinationsStop | rag/evaluator.py:106-113 | HALLUCINATION twice ends the loop after two cycles with HALLUCINATION, within a budget of three. |
| Evaluator.InterruptedStreakRunsOut | rag/evaluator.py:106-107 | HALLUCINATION, INCOMPLETE, HALLUCINATION resets the streaks and uses the whole budget of three. |
| Evaluator.CorrectFirstStops | rag/evaluator.py:95-101 | A correct first reply ends the loop at once with one record and no critique. |
| Evaluator.EvaluateAnswer | rag/evaluator.py:46-130 | `evaluate_answer` calls `ask` once, with no history and default `top_k`. It returns the outcome of judging that answer against the context of its sources. Every cycle's judge prompt is the same critic prompt. |
| Evaluator.JudgeSeesPreviews | rag/evaluator.py:57-63 | The judged answer is the reply to the prompt with the default five passages. The judge's context joins the 300-character previews of those passages. |
| Evaluator.JudgeCycle | rag/evaluator.py:71-75 | One judge call and normalisation give that cycle's normalised feedback. |
| Evaluator.CritiqueCycles | rag/evaluator.py:65-130 | The cycle loop returns exactly the specified outcome, and sends one identical critic prompt per cycle run. |
| EvalMetrics.Prefix | rag/eval_metrics.py:12 | `ids[:k]` is a prefix of length `min(k, len)` for `k >= 0`, or `max(0, len + k)` for negative `k`. |
| EvalMetrics.HasRelevant | rag/eval_metrics.py:13 | `any(d in relevant for d in top_k)`: some id of the prefix is in the relevant set. |
| EvalMetrics.HitRateAtK | rag/eval_metrics.py:11-13 | The hit rate is 1 or 0. |
| EvalMetrics.ReciprocalRankFrom | rag/eval_metrics.py:17-20 | The search from rank `i + 1` gives a value between 0 and `1 / (i + 1)`. |
| EvalMetrics.ReciprocalRankFromSpec | rag/eval_metrics.py:17-20 | The search gives `1 / (j + 1)` when the first relevant id from `i` on is at `j`, and 0 when there is none. |
| EvalMetrics.MrrAtK | rag/eval_metrics.py:15-20 | MRR lies in [0, 1]. |
| EvalMetrics.MrrIsReciprocalOfFirstRank | rag/eval_metrics.py:15-20 | MRR is `1 / rank` of the first relevant id of the top `k`, and 0 when there is none. |
| EvalMetrics.HitIffMrrPositive | rag/eval_metrics.py:11-20 | The hit rate is 1 exactly when MRR is positive. |
| EvalMetrics.CountRelevant | rag/eval_metrics.py:26 | The number of hits is at most the prefix length. |
| EvalMetrics.CountRelevantAppend | rag/eval_metrics.py:26 | Hits add up over a concatenation. |
| EvalMetrics.CountRelevantExtremes | rag/eval_metrics.py:26 | Zero hits means no relevant id, and `len` hits means every id is relevant. |
| EvalMetrics.PrecisionAtK | rag/eval_metrics.py:22-27 | Precision lies in [0, 1] and is 0 on an empty prefix. |
| EvalMetrics.PrecisionDividesByPrefixLength | rag/eval_metrics.py:22-27 | Precision times `min(k, len)` is the number of hits. The divisor is the prefix length, not `k`. |
| EvalMetrics.PrecisionOne | rag/eval_metrics.py:22-27 | Precision is 1 exactly when the prefix is non-empty and entirely relevant. |
| EvalMetrics.PrecisionAtMostHit | rag/eval_metrics.py:11-27 | Precision never exceeds the hit rate, and it is 0 without a hit. |
| EvalMetrics.MonotoneInK | rag/eval_metrics.py:11-20 | Raising a non-negative `k` never lowers the hit rate or MRR. |
| EvalMetrics.MetricsIgnoreTail | rag/eval_metrics.py:11-27 | Ids ranked below the first `k` do not affect any of the three metrics. |
| ChatHistory.Step | ui/app.py:134-138 | One message keeps the pairs so far and adds at most one. It adds one exactly when it is an assistant message and a user question is pending. |
| ChatHistory.Replay | ui/app.py:133-138 | Going through the messages keeps the pairs that were there before and adds at most one pair per message. |
| ChatHistory.BuildHistory | ui/app.py:131-138 | The loop's `history` is the history of replaying the whole log from an empty state. |
| ChatHistory.ReplaySnoc | ui/app.py:133-138 | Replaying one more message is one more loop iteration. |
| ChatHistory.PendingIsLastTurn | ui/app.py:133-138 | `last_user` ends as the last user or assistant message when that is a user message, and as nothing otherwise. |
| ChatHistory.PairIndices | ui/app.py:133-138 | Without the loop's state, the message indices of the pairs: each assistant message is paired with the last user or assistant message before it, when that one is a user message. There are at most as many pairs as messages. |
| ChatHistory.PairIndicesAnswered | ui/app.py:133-138 | Every listed pair is a user message and the assistant message that answered it. Each pair lies wholly before the next. |
| ChatHistory.PairIndicesComplete | ui/app.py:133-138 | Every answered exchange of the log is one of the listed pairs. |
| ChatHistory.PairIndicesGiveHistory | ui/app.py:133-138 | The history has one pair per listed index pair, in the same order. Pair `k` holds the contents of those two messages. |
| ChatHistory.PairsMatchExchanges | ui/app.py:133-138 | The history is exactly the answered exchanges of the log, in message order. Pair `k` is the contents of the `k`-th exchange, each exchange lies wholly before the next, and every answered exchange appears. |
| ChatHistory.PairsAreDisjoint | ui/app.py:133-138 | Two different pairs share no message: their four message indices are strictly increasing. |
| ChatHistory.PairsAreGenuine | ui/app.py:133-138 | Every pair is a user message and the assistant message that answered it, with no user or assistant message between them. |
| ChatHistory.PairCountBounds | ui/app.py:133-138 | There are at most as many pairs as assistant messages. Pairs plus a pending question are at most the number of user messages. |
| ChatHistory.NewQuestionPending | ui/app.py:126-138 | The new question, appended before the loop, stays pending and adds no pair. |
| ChatHistory.LeadingAssistantSkipped | ui/app.py:136 | An assistant message at the head of the log is skipped. |
| ChatHistory.ExchangeAddsPair | ui/app.py:134-138 | A question followed by its answer adds exactly that pair. |
| ChatHistory.ConsecutiveQuestionsKeepLast | ui/app.py:134-135 | Of two questions in a row, only the later one is paired. |
| ChatHistory.SecondAnswerSkipped | ui/app.py:136-138 | A second answer in a row has no pending question and is skipped. |

## Left out

- Evaluator.CritiqueCycles: the `for cycle in range(...)` loop is a method of its own, called by `EvaluateAnswer` after `ask` and the base context. One judge call plus normalisation is the method `JudgeCycle`. The steps and their order are those of `evaluate_answer`.
- The judge's context is built from the 300-character previews stored in `sources`, as the code does (`meta.get("sources")` at rag/evaluator.py:63). It is not built from the full retrieved passages; `JudgeSeesPreviews` states this.
- Text.Upper: only ASCII letters are upper-cased. Python's `str.upper()` also maps non-ASCII letters and can change the length of a string (for example "ß" becomes "SS"). Unicode case tables are outside the model.
- Text.Strip: whitespace is the code-point set of Python's `str.isspace()`, written out as ranges. No Unicode database is consulted.
- EvalMetrics: scores are modelled as exact reals. Float rounding of `1.0 / rank` and `hits / len(top_k)` is not modelled.
- The `print` of the judge feedback and the `reflection_history` list are left out. The list is appended to but never read, so it has no effect on the result.
- Exceptions from the models, the vector store or the network are left out. They propagate uncaught in the source, and no partial result is returned.
- `ndcg_at_k` and `text_metrics` are left out, along with the BLEU, METEOR and ROUGE scores they use. They need logarithms and external libraries.
- Model construction is left out: `from_index`, `create_gen_llm`, `create_judge_llm`, the index loading and the settings other than `top_k`. It is configuration of external services.
- The chat front end's rendering, its HTTP call to the backend and its dashboard are left out. Only the history-pairing loop is modelled.
- Pipeline.Ask: the `chat_history or []` normalisation is not modelled separately, because the history is never used afterwards.
