/**
 * `InlineLLMJudge.evaluate_answer`: answer the question once through the RAG
 * pipeline, then ask a judge model, cycle after cycle, whether that answer is
 * CORRECT, a HALLUCINATION or INCOMPLETE, until a verdict settles it or the
 * cycle budget runs out.  The judge model is an oracle: `judge(c, p)` is its
 * reply to the c-th call (counting from 1), made with prompt `p`.
 */
module Evaluator {
  import opened Wrappers
  import opened Text
  import Pipeline

  /** The marker after which the judge's label is read. */
  const Marker: string := "LABEL:"

  /** `InlineLLMJudge.__init__`'s default for `max_cycles`. */
  const DefaultMaxCycles: int := 1

  const CorrectToken: string := "CORRECT"
  const HallucinationToken: string := "HALLUCINATION"
  const IncompleteToken: string := "INCOMPLETE"

  /** The judge's reply to its c-th call (c >= 1) made with a given prompt. */
  type JudgeModel = (nat, string) -> string

  /** One entry of the `cycles` list (`CritiqueResult`). */
  datatype CritiqueResult = CritiqueResult(cycle: int, answer: string, critique: Option<string>, isCorrect: bool)

  /** The overall outcome placed under "label". */
  datatype Label = Correct | Hallucination | Incomplete | MaxCycles

  /** The dictionary `evaluate_answer` returns. */
  datatype Evaluation = Evaluation(answer: string, judgeLabel: Label, cycles: seq<CritiqueResult>,
                                   sources: seq<Pipeline.Passage>)

  // ---------------------------------------------------------------------
  // The critic prompt
  // ---------------------------------------------------------------------

  const CriticIntro: string :=
    "\n        You are an impartial judge. \n"
    + "        Evaluate whether the assistant\U{2019}s answer correctly fulfills the user\U{2019}s request in context.\n\n"
    + "        Reply with exactly one of these labels\U{2014}no extra text:\n\n"
    + "        CORRECT\n        HALLUCINATION\n        INCOMPLETE\n\n"
    + "        === CONTEXT ===\n        "
  const CriticMiddle: string := "\n\n        === ASSISTANT ANSWER ===\n        "
  const CriticOutro: string := "\n\n        LABEL:\n        "

  /** The label line of the critic prompt holds "LABEL:". */
  lemma MarkerInOutro()
    ensures OccursAt(CriticOutro, Marker, 10)
  {
  }

  /** What follows the context in the critic prompt. */
  function CriticRest(answer: string): (r: string) {
    CriticMiddle + answer + CriticOutro
  }

  /**
   * `_build_critic_prompt(base_context, answer)`: the prompt shows the judge
   * the context and the answer, and itself holds the "LABEL:" line it asks
   * the judge to complete.
   */
  function CriticPrompt(baseContext: string, answer: string): (p: string)
    ensures Contains(p, baseContext) && Contains(p, answer)
    ensures Contains(p, Marker)
  {
    var rest := CriticRest(answer);
    NestedFrame(CriticIntro, baseContext, CriticMiddle, answer, CriticOutro);
    MarkerInOutro();
    OccursAfterPrefix(CriticMiddle + answer, CriticOutro, Marker, 10);
    OccursAfterPrefix(CriticIntro + baseContext, rest, Marker, |CriticMiddle| + |answer| + 10);
    CriticIntro + baseContext + rest
  }

  /** The critic prompt shows the judge the context, then the answer, and ends with the label line. */
  lemma CriticPromptLayout(baseContext: string, answer: string)
    ensures var p := CriticPrompt(baseContext, answer);
      && OccursAt(p, baseContext, |CriticIntro|)
      && OccursAt(p, answer, |CriticIntro| + |baseContext| + |CriticMiddle|)
      && p[|p| - |CriticOutro|..] == CriticOutro
  {
    NestedFrame(CriticIntro, baseContext, CriticMiddle, answer, CriticOutro);
  }

  // ---------------------------------------------------------------------
  // Normalising and classifying the judge's reply
  // ---------------------------------------------------------------------

  /**
   * The `if "LABEL:" in feedback` step: keep the stripped last piece of
   * `feedback.split("LABEL:")`, or `feedback` itself when it has no "LABEL:".
   */
  function ReadLabel(feedback: string): (r: string)
    ensures !Contains(r, Marker)
    ensures NoLower(feedback) ==> NoLower(r)
    ensures IsTrimmed(feedback) ==> IsTrimmed(r)
  {
    if Contains(feedback, Marker) then
      var parts := Split(feedback, Marker);
      var last := parts[|parts| - 1];
      LastPieceOfSplit(feedback, Marker);
      assert NoLower(feedback) ==> NoLower(last);
      StripKeepsAbsence(last, Marker);
      Strip(last)
    else
      feedback
  }

  /**
   * `str(raw).strip().upper()` followed by `ReadLabel`: normalised feedback
   * is trimmed, has no ASCII lower-case letter and holds no "LABEL:".
   */
  function Normalise(raw: string): (r: string)
    ensures IsTrimmed(r) && NoLower(r) && !Contains(r, Marker)
  {
    ReadLabel(Upper(Strip(raw)))
  }

  /** Trimming cannot introduce an occurrence. */
  lemma StripKeepsAbsence(s: string, m: string)
    requires !Contains(s, m)
    ensures !Contains(Strip(s), m)
  {
    var r := Strip(s);
    if Contains(r, m) {
      ContainsSlice(s, StripStart(s), StripEnd(s), m);
    }
  }

  /** "LABEL:" cannot overlap itself, so occurrences of it are at least six apart. */
  lemma MarkerDoesNotOverlap(s: string, j: int, k: int)
    requires OccursAt(s, Marker, j) && j < k < j + |Marker|
    ensures !OccursAt(s, Marker, k)
  {
    var d := k - j;
    if d == 4 {
      assert s[k + 1] == Marker[5] != Marker[1];
    } else {
      assert s[k] == Marker[d] != Marker[0];
    }
  }

  /** Where the last piece of `f.split("LABEL:")` starts, "LABEL:" occurs for the last time. */
  lemma LastPieceAfterLastLabel(f: string)
    requires Contains(f, Marker)
    ensures LastOccurrence(f, Marker, LastPieceStart(f, Marker, 0) - |Marker|)
  {
    LastPieceAfterLastSep(f, Marker);
    var j := LastPieceStart(f, Marker, 0) - |Marker|;
    forall k | j < k < j + |Marker| ensures !OccursAt(f, Marker, k) {
      MarkerDoesNotOverlap(f, j, k);
    }
  }

  /**
   * When the feedback holds "LABEL:", only the trimmed text after its last
   * occurrence is kept; otherwise the feedback is kept whole.
   */
  lemma ReadLabelKeepsTextAfterLastLabel(f: string)
    ensures !Contains(f, Marker) ==> ReadLabel(f) == f
    ensures Contains(f, Marker) ==>
      exists j :: LastOccurrence(f, Marker, j) && ReadLabel(f) == Strip(f[j + |Marker|..])
  {
    if Contains(f, Marker) {
      ReadLabelOfLabelled(f);
      LastPieceAfterLastLabel(f);
      var j := LastPieceStart(f, Marker, 0) - |Marker|;
      assert LastOccurrence(f, Marker, j) && ReadLabel(f) == Strip(f[j + |Marker|..]);
    }
  }

  /** With "LABEL:" present, `ReadLabel` strips the text from where the last split piece starts. */
  lemma ReadLabelOfLabelled(f: string)
    requires Contains(f, Marker)
    ensures ReadLabel(f) == Strip(f[LastPieceStart(f, Marker, 0)..])
  {
    LastPieceOfSplit(f, Marker);
  }

  /** Normalising a normalised reply changes nothing. */
  lemma NormaliseIdempotent(raw: string)
    ensures Normalise(Normalise(raw)) == Normalise(raw)
  {
    var r := Normalise(raw);
    StripOfTrimmed(r);
  }

  /**
   * CORRECT: exact, or contained as a substring alongside neither other
   * token.  The exact test adds nothing: the substring test alone decides.
   */
  predicate IsCorrectText(feedback: string)
    ensures IsCorrectText(feedback) <==>
      Contains(feedback, CorrectToken) && !Contains(feedback, HallucinationToken)
      && !Contains(feedback, IncompleteToken)
  {
    OccursInItself(CorrectToken);
    feedback == CorrectToken
    || (Contains(feedback, CorrectToken) && !Contains(feedback, HallucinationToken)
        && !Contains(feedback, IncompleteToken))
  }

  /** HALLUCINATION: exact equality only; such feedback is never also read as correct. */
  predicate IsHallucText(feedback: string)
    ensures IsHallucText(feedback) ==> !IsCorrectText(feedback)
  {
    OccursInItself(HallucinationToken);
    feedback == HallucinationToken
  }

  /** INCOMPLETE: exact equality only; such feedback is neither correct nor a hallucination. */
  predicate IsIncompleteText(feedback: string)
    ensures IsIncompleteText(feedback) ==> !IsCorrectText(feedback) && !IsHallucText(feedback)
  {
    OccursInItself(IncompleteToken);
    feedback == IncompleteToken
  }

  /** At most one of the three verdicts holds for any text. */
  lemma VerdictsExclusive(feedback: string)
    ensures !(IsCorrectText(feedback) && IsHallucText(feedback))
    ensures !(IsCorrectText(feedback) && IsIncompleteText(feedback))
    ensures !(IsHallucText(feedback) && IsIncompleteText(feedback))
  {
    if IsHallucText(feedback) {
      assert OccursAt(feedback, HallucinationToken, 0);
    }
    if IsIncompleteText(feedback) {
      assert OccursAt(feedback, IncompleteToken, 0);
    }
  }

  /**
   * The substring rule for CORRECT against the exact rule for the others:
   * "INCORRECT" and "CORRECT." count as correct,
   * while "HALLUCINATION DETECTED" is recognised as nothing.
   */
  lemma ClassificationIsAsymmetric()
    ensures IsCorrectText("INCORRECT")
    ensures IsCorrectText("CORRECT.")
    ensures var f := "HALLUCINATION DETECTED";
      !IsCorrectText(f) && !IsHallucText(f) && !IsIncompleteText(f)
  {
    assert OccursAt("INCORRECT", CorrectToken, 2);
    assert OccursAt("CORRECT.", CorrectToken, 0);
    assert OccursAt("HALLUCINATION DETECTED", HallucinationToken, 0);
  }

  // ---------------------------------------------------------------------
  // The loop's specification
  // ---------------------------------------------------------------------

  /** The normalised feedback of every cycle run with `prompt`. */
  function FeedbackOf(judge: JudgeModel, prompt: string): nat -> string {
    (c: nat) => Normalise(judge(c, prompt))
  }

  /** How many of the cycles up to `c`, counting back from `c`, gave exactly `token`. */
  function Streak(fb: nat -> string, token: string, c: nat): (n: nat)
    ensures n <= c
    ensures n >= 1 <==> c >= 1 && fb(c) == token
    decreases c
  {
    if c == 0 then 0
    else if fb(c) == token then Streak(fb, token, c - 1) + 1
    else 0
  }

  /** A streak of two means the last two cycles both gave the token. */
  lemma StreakOfTwo(fb: nat -> string, token: string, c: nat)
    ensures Streak(fb, token, c) >= 2 <==>
            c >= 2 && fb(c - 1) == token && fb(c) == token
  {
  }

  /** The two streak counters are never both running: one of them is always 0. */
  lemma StreaksExclusive(fb: nat -> string, c: nat)
    ensures Streak(fb, HallucinationToken, c) == 0 || Streak(fb, IncompleteToken, c) == 0
  {
  }

  /** Cycle `c` ends the loop. */
  predicate StopsAt(fb: nat -> string, c: nat) {
    IsCorrectText(fb(c))
    || Streak(fb, HallucinationToken, c) >= 2
    || Streak(fb, IncompleteToken, c) >= 2
  }

  /** None of the cycles 1 to `c - 1` stops. */
  predicate NoStopBefore(fb: nat -> string, c: int)
    decreases c
  {
    c <= 1 || (!StopsAt(fb, c - 1) && NoStopBefore(fb, c - 1))
  }

  /** `NoStopBefore` says of every cycle before `c` that it does not stop. */
  lemma {:induction false} NoStopBeforeSpec(fb: nat -> string, c: int)
    ensures NoStopBefore(fb, c) <==> forall d :: 1 <= d < c ==> !StopsAt(fb, d)
    decreases c
  {
    if c > 1 {
      NoStopBeforeSpec(fb, c - 1);
    }
  }

  /** The label a stopping cycle returns, in the order the loop tests them. */
  function StopLabel(fb: nat -> string, c: nat): (l: Label) {
    if IsCorrectText(fb(c)) then Correct
    else if Streak(fb, HallucinationToken, c) >= 2 then Hallucination
    else if Streak(fb, IncompleteToken, c) >= 2 then Incomplete
    else MaxCycles
  }

  /** The first cycle from `c` on that stops, or `maxCycles` when none does. */
  function StopFrom(fb: nat -> string, maxCycles: int, c: nat): (n: nat)
    requires 1 <= c <= maxCycles
    ensures c <= n <= maxCycles
    decreases maxCycles - c
  {
    if StopsAt(fb, c) || c == maxCycles then c else StopFrom(fb, maxCycles, c + 1)
  }

  /** `StopFrom` passes over only cycles that do not stop, and stops at one unless the budget ends. */
  lemma {:induction false} StopFromSpec(fb: nat -> string, maxCycles: int, c: nat)
    requires 1 <= c <= maxCycles
    ensures var n := StopFrom(fb, maxCycles, c);
      && (forall d :: c <= d < n ==> !StopsAt(fb, d))
      && (n < maxCycles ==> StopsAt(fb, n))
    decreases maxCycles - c
  {
    if !StopsAt(fb, c) && c < maxCycles {
      StopFromSpec(fb, maxCycles, c + 1);
    }
  }

  /** `StopFrom` is the first stopping cycle, or the end of the budget. */
  lemma {:induction false} StopFromIsFirstStop(fb: nat -> string, maxCycles: int, c: nat, k: nat)
    requires 1 <= c <= k <= maxCycles
    requires forall d :: c <= d < k ==> !StopsAt(fb, d)
    requires StopsAt(fb, k) || k == maxCycles
    ensures StopFrom(fb, maxCycles, c) == k
    decreases k - c
  {
    if c < k {
      StopFromIsFirstStop(fb, maxCycles, c + 1, k);
    }
  }

  /**
   * How many cycles run: the first stopping cycle within the budget, or the
   * whole budget (none when the budget is not positive).
   */
  function CycleCount(fb: nat -> string, maxCycles: int): (n: nat)
    ensures n == 0 <==> maxCycles <= 0
    ensures n <= maxCycles || n == 0
  {
    if maxCycles <= 0 then 0 else StopFrom(fb, maxCycles, 1)
  }

  /** No cycle before the last one run stops, and the last one stops unless the budget ran out. */
  lemma CycleCountSpec(fb: nat -> string, maxCycles: int)
    ensures var n := CycleCount(fb, maxCycles);
      && (forall d :: 1 <= d < n ==> !StopsAt(fb, d))
      && (0 < n < maxCycles ==> StopsAt(fb, n))
  {
    if maxCycles > 0 {
      StopFromSpec(fb, maxCycles, 1);
    }
  }

  /** The record of cycle `c`: the critique is absent exactly when the cycle is correct. */
  function Record(c: int, answer: string, feedback: string): (r: CritiqueResult)
    ensures r.cycle == c && r.answer == answer
    ensures r.isCorrect == IsCorrectText(feedback)
    ensures r.critique == None <==> r.isCorrect
    ensures r.critique == None || r.critique == Some(feedback)
  {
    CritiqueResult(c, answer, if IsCorrectText(feedback) then None else Some(feedback), IsCorrectText(feedback))
  }

  /** The records of cycles 1 to n. */
  function Records(answer: string, fb: nat -> string, n: nat): (rs: seq<CritiqueResult>)
    ensures |rs| == n
    decreases n
  {
    if n == 0 then [] else Records(answer, fb, n - 1) + [Record(n, answer, fb(n))]
  }

  /** Entry `i` of the records is the record of cycle `i + 1`. */
  lemma {:induction false} RecordsAt(answer: string, fb: nat -> string, n: nat, i: nat)
    requires i < n
    ensures Records(answer, fb, n)[i] == Record(i + 1, answer, fb(i + 1))
    decreases n
  {
    if i < n - 1 {
      RecordsAt(answer, fb, n - 1, i);
    }
  }

  /** What `evaluate_answer` returns for a fixed answer, sources and critic prompt. */
  function Outcome(answer: string, sources: seq<Pipeline.Passage>, fb: nat -> string,
                   maxCycles: int): (e: Evaluation)
    ensures e.answer == answer && e.sources == sources
    ensures |e.cycles| == CycleCount(fb, maxCycles)
    ensures e.cycles == [] ==> e.judgeLabel == MaxCycles
  {
    var n := CycleCount(fb, maxCycles);
    Evaluation(answer, if n == 0 then MaxCycles else StopLabel(fb, n),
               Records(answer, fb, n), sources)
  }

  /** A loop that stops at cycle `k` returns that cycle's label and the records of cycles 1 to `k`. */
  lemma OutcomeAtStop(answer: string, sources: seq<Pipeline.Passage>, fb: nat -> string,
                      maxCycles: int, k: nat)
    requires 1 <= k <= maxCycles
    requires NoStopBefore(fb, k)
    requires StopsAt(fb, k)
    ensures Outcome(answer, sources, fb, maxCycles)
         == Evaluation(answer, StopLabel(fb, k), Records(answer, fb, k), sources)
    ensures StopLabel(fb, k) != MaxCycles
  {
    NoStopBeforeSpec(fb, k);
    StopFromIsFirstStop(fb, maxCycles, 1, k);
  }

  /** A loop in which no cycle stops returns `MAX_CYCLES` with the records of the whole budget. */
  lemma OutcomeExhausted(answer: string, sources: seq<Pipeline.Passage>, fb: nat -> string,
                         maxCycles: int)
    requires NoStopBefore(fb, maxCycles + 1)
    ensures Outcome(answer, sources, fb, maxCycles)
         == Evaluation(answer, MaxCycles, Records(answer, fb, if maxCycles <= 0 then 0 else maxCycles), sources)
  {
    NoStopBeforeSpec(fb, maxCycles + 1);
    if maxCycles >= 1 {
      assert !StopsAt(fb, maxCycles);
      StopFromIsFirstStop(fb, maxCycles, 1, maxCycles);
    }
  }

  // ---------------------------------------------------------------------
  // Properties of the outcome
  // ---------------------------------------------------------------------

  /**
   * The outcome lists one record per cycle run, numbered from 1, each with the
   * answer under judgement and with a critique exactly when the cycle was not
   * correct; every cycle but the last was not correct.
   */
  lemma OutcomeRecords(answer: string, sources: seq<Pipeline.Passage>, fb: nat -> string,
                       maxCycles: int)
    ensures var e := Outcome(answer, sources, fb, maxCycles);
      && e.answer == answer && e.sources == sources
      && |e.cycles| == CycleCount(fb, maxCycles)
      && (forall i :: 0 <= i < |e.cycles| ==>
            && e.cycles[i].cycle == i + 1
            && e.cycles[i].answer == answer
            && e.cycles[i].isCorrect == IsCorrectText(fb(i + 1))
            && (e.cycles[i].critique == None <==> e.cycles[i].isCorrect)
            && (!e.cycles[i].isCorrect ==> e.cycles[i].critique == Some(fb(i + 1))))
      && (forall i :: 0 <= i < |e.cycles| - 1 ==> !e.cycles[i].isCorrect)
  {
    var n := CycleCount(fb, maxCycles);
    CycleCountSpec(fb, maxCycles);
    forall i | 0 <= i < n
      ensures Records(answer, fb, n)[i] == Record(i + 1, answer, fb(i + 1))
    {
      RecordsAt(answer, fb, n, i);
    }
    forall d: nat | 1 <= d < n
      ensures !IsCorrectText(fb(d))
    {
      assert !StopsAt(fb, d);
    }
  }

  /**
   * The label of the outcome: CORRECT exactly when the last cycle run was
   * correct, HALLUCINATION (INCOMPLETE) exactly when the last two cycles both
   * gave that token, and MAX_CYCLES exactly when the whole budget ran without
   * any of these.
   */
  lemma OutcomeLabel(answer: string, sources: seq<Pipeline.Passage>, fb: nat -> string,
                     maxCycles: int)
    ensures var n := CycleCount(fb, maxCycles);
      var l := Outcome(answer, sources, fb, maxCycles).judgeLabel;
      && (l == Correct <==> n >= 1 && IsCorrectText(fb(n)))
      && (l == Hallucination <==> n >= 2 && fb(n - 1) == HallucinationToken && fb(n) == HallucinationToken)
      && (l == Incomplete <==> n >= 2 && fb(n - 1) == IncompleteToken && fb(n) == IncompleteToken)
      && (l == MaxCycles <==> (n == 0 || !StopsAt(fb, n)))
      && (l == MaxCycles ==> n == (if maxCycles <= 0 then 0 else maxCycles))
  {
    var n := CycleCount(fb, maxCycles);
    CycleCountSpec(fb, maxCycles);
    if n >= 1 {
      StreakOfTwo(fb, HallucinationToken, n);
      StreakOfTwo(fb, IncompleteToken, n);
      VerdictsExclusive(fb(n));
    }
  }

  /** With no positive budget no cycle runs and the label is MAX_CYCLES. */
  lemma NoBudget(answer: string, sources: seq<Pipeline.Passage>, fb: nat -> string, maxCycles: int)
    requires maxCycles <= 0
    ensures Outcome(answer, sources, fb, maxCycles) == Evaluation(answer, MaxCycles, [], sources)
  {
  }

  /**
   * With the default budget of one cycle exactly one cycle runs, and the label
   * can only be CORRECT or MAX_CYCLES: a streak of two cannot form.
   */
  lemma DefaultBudget(answer: string, sources: seq<Pipeline.Passage>, fb: nat -> string)
    ensures var e := Outcome(answer, sources, fb, DefaultMaxCycles);
      && |e.cycles| == 1
      && (e.judgeLabel == Correct <==> IsCorrectText(fb(1)))
      && (e.judgeLabel != Correct ==> e.judgeLabel == MaxCycles)
  {
    OutcomeLabel(answer, sources, fb, DefaultMaxCycles);
  }

  /** Feedback that repeats a given list of replies and then says nothing. */
  function Replies(rs: seq<string>): nat -> string {
    (c: nat) => if 1 <= c <= |rs| then rs[c - 1] else ""
  }

  /** HALLUCINATION twice in a row ends the loop after two cycles, within a budget of three. */
  lemma TwoHallucinationsStop(answer: string, sources: seq<Pipeline.Passage>)
    ensures var e := Outcome(answer, sources, Replies([HallucinationToken, HallucinationToken]), 3);
      e.judgeLabel == Hallucination && |e.cycles| == 2
      && e.cycles[1].critique == Some(HallucinationToken)
  {
    var fb := Replies([HallucinationToken, HallucinationToken]);
    VerdictsExclusive(fb(1));
    VerdictsExclusive(fb(2));
    assert !StopsAt(fb, 1);
    assert StopsAt(fb, 2);
    OutcomeAtStop(answer, sources, fb, 3, 2);
    RecordsAt(answer, fb, 2, 1);
  }

  /** An interrupted streak does not count: HALLUCINATION, INCOMPLETE, HALLUCINATION uses the whole budget of three. */
  lemma InterruptedStreakRunsOut(answer: string, sources: seq<Pipeline.Passage>)
    ensures var e := Outcome(answer, sources,
                             Replies([HallucinationToken, IncompleteToken, HallucinationToken]), 3);
      e.judgeLabel == MaxCycles && |e.cycles| == 3
  {
    var fb := Replies([HallucinationToken, IncompleteToken, HallucinationToken]);
    VerdictsExclusive(fb(1));
    VerdictsExclusive(fb(2));
    VerdictsExclusive(fb(3));
    assert !StopsAt(fb, 1) && !StopsAt(fb, 2) && !StopsAt(fb, 3);
    OutcomeExhausted(answer, sources, fb, 3);
  }

  /** A correct first reply ends the loop at once, with no critique recorded. */
  lemma CorrectFirstStops(answer: string, sources: seq<Pipeline.Passage>, maxCycles: int)
    requires maxCycles >= 1
    ensures var e := Outcome(answer, sources, Replies([CorrectToken]), maxCycles);
      e.judgeLabel == Correct && e.cycles == [CritiqueResult(1, answer, None, true)]
  {
    var fb := Replies([CorrectToken]);
    assert IsCorrectText(fb(1));
    OutcomeAtStop(answer, sources, fb, maxCycles, 1);
  }

  // ---------------------------------------------------------------------
  // The loop
  // ---------------------------------------------------------------------

  /**
   * `evaluate_answer(question)` of a judge with budget `maxCycles`.  `ask` is
   * called once, with no history and no `top_k` or temperature override;
   * `prompts` lists the prompts sent to the judge, one per cycle.
   */
  method EvaluateAnswer(question: string, maxCycles: int, retrieve: Pipeline.Retriever,
                        generate: Pipeline.Generator, judge: JudgeModel)
    returns (result: Evaluation, prompts: seq<string>)
    ensures var (answer, meta) := Pipeline.Ask(question, [], None, None, retrieve, generate);
      var prompt := CriticPrompt(Pipeline.Context(meta.sources), answer);
      && result == Outcome(answer, meta.sources, FeedbackOf(judge, prompt), maxCycles)
      && |prompts| == |result.cycles|
      && forall i :: 0 <= i < |prompts| ==> prompts[i] == prompt
  {
    var (answer, meta) := Pipeline.Ask(question, [], None, None, retrieve, generate);
    var baseContext := Pipeline.Context(meta.sources);
    result, prompts := CritiqueCycles(answer, meta.sources, baseContext, maxCycles, judge,
                                      FeedbackOf(judge, CriticPrompt(baseContext, answer)));
  }

  /**
   * What the judge is shown: the answer is the generation model's reply to
   * the prompt built from the default five passages, and the context is
   * built from the 300-character previews in `sources`, not from the full
   * passages the answer was generated from.
   */
  lemma JudgeSeesPreviews(question: string, retrieve: Pipeline.Retriever, generate: Pipeline.Generator)
    ensures var (answer, meta) := Pipeline.Ask(question, [], None, None, retrieve, generate);
      var docs := retrieve(question, Pipeline.DefaultTopK);
      && answer == Pipeline.ReplyText(generate(Pipeline.BuildPrompt(question, docs)))
      && |meta.sources| == |docs|
      && Pipeline.Context(meta.sources) == Join(Pipeline.ContextSeparator, Pipeline.Texts(meta.sources))
      && forall i :: 0 <= i < |docs| ==>
           Pipeline.Texts(meta.sources)[i] == Truncate(docs[i].pageContent, Pipeline.PreviewLength)
  {
  }

  /**
   * One call to the judge with the critic prompt, and the normalisation of
   * its reply: the result is the feedback `fb` names for that cycle.
   */
  method JudgeCycle(judge: JudgeModel, criticPrompt: string, cycle: nat, ghost fb: nat -> string)
    returns (feedback: string)
    requires forall c: nat {:trigger Normalise(judge(c, criticPrompt))} ::
      fb(c) == Normalise(judge(c, criticPrompt))
    ensures feedback == fb(cycle)
  {
    var feedbackRaw := judge(cycle, criticPrompt);
    feedback := Normalise(feedbackRaw);
  }

  /**
   * The `for cycle in range(1, max_cycles + 1)` loop of `evaluate_answer`,
   * for a fixed answer, sources and base context.  `fb` names the normalised
   * feedback of each cycle, so that the proof of the loop reads the
   * normalisation only for the cycle at hand.
   */
  method CritiqueCycles(answer: string, sources: seq<Pipeline.Passage>, baseContext: string,
                        maxCycles: int, judge: JudgeModel, ghost fb: nat -> string)
    returns (result: Evaluation, prompts: seq<string>)
    requires forall c: nat {:trigger Normalise(judge(c, CriticPrompt(baseContext, answer)))} ::
      fb(c) == Normalise(judge(c, CriticPrompt(baseContext, answer)))
    ensures result == Outcome(answer, sources, fb, maxCycles)
    ensures |prompts| == |result.cycles|
    ensures forall i :: 0 <= i < |prompts| ==> prompts[i] == CriticPrompt(baseContext, answer)
  {
    var cycles: seq<CritiqueResult> := [];
    var hallucCount, incompleteCount := 0, 0;
    prompts := [];
    var cycle := 1;
    while cycle <= maxCycles
      invariant 1 <= cycle <= if maxCycles < 1 then 1 else maxCycles + 1
      invariant cycles == Records(answer, fb, cycle - 1)
      invariant hallucCount == Streak(fb, HallucinationToken, cycle - 1)
      invariant incompleteCount == Streak(fb, IncompleteToken, cycle - 1)
      invariant NoStopBefore(fb, cycle)
      invariant |prompts| == cycle - 1
      invariant forall i :: 0 <= i < |prompts| ==> prompts[i] == CriticPrompt(baseContext, answer)
    {
      var criticPrompt := CriticPrompt(baseContext, answer);
      prompts := prompts + [criticPrompt];
      var feedback := JudgeCycle(judge, criticPrompt, cycle, fb);
      var isCorrect := IsCorrectText(feedback);
      var isHalluc := IsHallucText(feedback);
      var isIncomplete := IsIncompleteText(feedback);
      cycles := cycles + [CritiqueResult(cycle, answer, if isCorrect then None else Some(feedback), isCorrect)];
      if isCorrect {
        OutcomeAtStop(answer, sources, fb, maxCycles, cycle);
        result := Evaluation(answer, Correct, cycles, sources);
        return;
      }
      hallucCount := if isHalluc then hallucCount + 1 else 0;
      incompleteCount := if isIncomplete then incompleteCount + 1 else 0;
      if hallucCount >= 2 {
        OutcomeAtStop(answer, sources, fb, maxCycles, cycle);
        result := Evaluation(answer, Hallucination, cycles, sources);
        return;
      }
      if incompleteCount >= 2 {
        OutcomeAtStop(answer, sources, fb, maxCycles, cycle);
        result := Evaluation(answer, Incomplete, cycles, sources);
        return;
      }
      assert !StopsAt(fb, cycle);
      cycle := cycle + 1;
    }
    assert maxCycles >= 1 ==> cycle == maxCycles + 1;
    OutcomeExhausted(answer, sources, fb, maxCycles);
    result := Evaluation(answer, MaxCycles, cycles, sources);
  }
}
