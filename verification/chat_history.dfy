/**
 * The chat front end's conversion of its message log into the history of
 * (question, answer) pairs sent along with a new question: one pass over the
 * messages that remembers the latest unanswered user message and pairs it
 * with the next assistant message.
 */
module ChatHistory {
  import opened Wrappers

  /** The `role` of a logged message; the log only ever holds "user" and "assistant". */
  datatype Role = User | Assistant | Other(name: string)

  /** One entry of `st.session_state.messages`. */
  datatype Message = Message(role: Role, content: string)

  /** The loop's state: the pairs built so far and `last_user`, the pending question. */
  datatype Pairing = Pairing(history: seq<(string, string)>, lastUser: Option<string>)

  /** The state before the first message. */
  const Start: Pairing := Pairing([], None)

  /**
   * One iteration: a user message becomes the pending question (replacing any
   * earlier one); an assistant message answers a pending question and clears
   * it, and is skipped when nothing is pending; other messages change nothing.
   */
  function Step(st: Pairing, m: Message): (r: Pairing)
    ensures |st.history| <= |r.history| <= |st.history| + 1
    ensures r.history[..|st.history|] == st.history
    ensures |r.history| > |st.history| <==> m.role == Assistant && st.lastUser.Some?
  {
    match m.role
    case User => Pairing(st.history, Some(m.content))
    case Assistant =>
      if st.lastUser.Some? then Pairing(st.history + [(st.lastUser.value, m.content)], None) else st
    case Other(_) => st
  }

  /**
   * The state after the messages `msgs`, starting from `st`: pairs already
   * built are never changed, and each message adds at most one.
   */
  function Replay(st: Pairing, msgs: seq<Message>): (r: Pairing)
    ensures |st.history| <= |r.history| <= |st.history| + |msgs|
    ensures r.history[..|st.history|] == st.history
    decreases |msgs|
  {
    if msgs == [] then st
    else
      var next := Step(st, msgs[0]);
      var r := Replay(next, msgs[1..]);
      assert r.history[..|st.history|] == r.history[..|next.history|][..|st.history|];
      r
  }

  /** Replaying one more message is one more step. */
  lemma {:induction false} ReplaySnoc(st: Pairing, msgs: seq<Message>, m: Message)
    ensures Replay(st, msgs + [m]) == Step(Replay(st, msgs), m)
    decreases |msgs|
  {
    if msgs == [] {
      assert ([] + [m])[1..] == [];
    } else {
      assert (msgs + [m])[1..] == msgs[1..] + [m];
      ReplaySnoc(Step(st, msgs[0]), msgs[1..], m);
    }
  }

  /**
   * The history-building loop: `history` is the pairs list of replaying the
   * whole log from the start.
   */
  method BuildHistory(messages: seq<Message>) returns (history: seq<(string, string)>)
    ensures history == Replay(Start, messages).history
  {
    history := [];
    var lastUser: Option<string> := None;
    var i := 0;
    while i < |messages|
      invariant 0 <= i <= |messages|
      invariant Replay(Pairing(history, lastUser), messages[i..]) == Replay(Start, messages)
    {
      var m := messages[i];
      assert messages[i..][1..] == messages[i + 1..];
      if m.role == User {
        lastUser := Some(m.content);
      } else if m.role == Assistant && lastUser != None {
        history := history + [(lastUser.value, m.content)];
        lastUser := None;
      }
      i := i + 1;
    }
    assert messages[i..] == [];
  }

  // ---------------------------------------------------------------------
  // An independent description of the pending question
  // ---------------------------------------------------------------------

  /** Index of the last user or assistant message, or -1 when there is none. */
  function LastTurn(msgs: seq<Message>): (t: int)
    ensures -1 <= t < |msgs|
  {
    if msgs == [] then -1
    else if !msgs[|msgs| - 1].role.Other? then |msgs| - 1
    else LastTurn(msgs[..|msgs| - 1])
  }

  /** `LastTurn` is a user or assistant message with only other messages after it. */
  lemma {:induction false} LastTurnSpec(msgs: seq<Message>)
    ensures var t := LastTurn(msgs);
      && (t >= 0 ==> !msgs[t].role.Other?)
      && forall l :: t < l < |msgs| ==> msgs[l].role.Other?
  {
    if msgs != [] && msgs[|msgs| - 1].role.Other? {
      var q := msgs[..|msgs| - 1];
      LastTurnSpec(q);
      assert forall l :: 0 <= l < |q| ==> q[l] == msgs[l];
    }
  }

  /**
   * The pending question after replaying a log is the last user or assistant
   * message when it is a user message, and nothing otherwise.
   */
  lemma {:induction false} PendingIsLastTurn(msgs: seq<Message>)
    ensures var t := LastTurn(msgs);
      Replay(Start, msgs).lastUser
        == if t >= 0 && msgs[t].role == User then Some(msgs[t].content) else None
    decreases |msgs|
  {
    if msgs != [] {
      var q, m := msgs[..|msgs| - 1], msgs[|msgs| - 1];
      assert msgs == q + [m];
      ReplaySnoc(Start, q, m);
      PendingIsLastTurn(q);
      if m.role.Other? {
        assert forall l :: 0 <= l < |q| ==> q[l] == msgs[l];
      }
    }
  }

  // ---------------------------------------------------------------------
  // What the history holds
  // ---------------------------------------------------------------------

  /**
   * A user message at `i` answered by the assistant message at `j`: only
   * messages of other roles come between them.
   */
  predicate Answered(msgs: seq<Message>, i: int, j: int) {
    0 <= i < j < |msgs| && msgs[i].role == User && msgs[j].role == Assistant
    && forall l :: i < l < j ==> msgs[l].role.Other?
  }

  /** An answered pair stays answered when more messages follow. */
  lemma AnsweredInLongerLog(msgs: seq<Message>, m: Message, i: int, j: int)
    requires Answered(msgs, i, j)
    ensures Answered(msgs + [m], i, j)
  {
    var n := msgs + [m];
    assert forall l :: 0 <= l < |msgs| ==> n[l] == msgs[l];
  }

  /** An answered pair that ends before the last message is answered in the log without it. */
  lemma AnsweredInShorterLog(msgs: seq<Message>, i: int, j: int)
    requires Answered(msgs, i, j) && j < |msgs| - 1
    ensures Answered(msgs[..|msgs| - 1], i, j)
  {
    var q := msgs[..|msgs| - 1];
    assert forall l :: 0 <= l < |q| ==> q[l] == msgs[l];
  }

  /**
   * The (user, assistant) message indices of the pairs, described without the
   * loop's state: an assistant message is paired with the last user or
   * assistant message before it, when that one is a user message.
   */
  function PairIndices(msgs: seq<Message>): (ps: seq<(int, int)>)
    ensures |ps| <= |msgs|
  {
    if msgs == [] then []
    else
      var q := msgs[..|msgs| - 1];
      var t := LastTurn(q);
      if msgs[|msgs| - 1].role == Assistant && t >= 0 && q[t].role == User
      then PairIndices(q) + [(t, |msgs| - 1)]
      else PairIndices(q)
  }

  /** The answered pair that ends at the last message starts at `LastTurn` of the log before it. */
  lemma AnsweredLast(msgs: seq<Message>, i: int)
    requires msgs != [] && Answered(msgs, i, |msgs| - 1)
    ensures var q := msgs[..|msgs| - 1];
      i == LastTurn(q) && q[i].role == User
  {
    var q := msgs[..|msgs| - 1];
    LastTurnSpec(q);
    var t := LastTurn(q);
    assert q[i] == msgs[i];
    assert i <= t;
    assert q[t] == msgs[t];
    assert t <= i;
  }

  /** Each listed pair is an answered exchange, and each lies wholly before the next. */
  lemma {:induction false} PairIndicesAnswered(msgs: seq<Message>)
    ensures forall k :: 0 <= k < |PairIndices(msgs)| ==>
              Answered(msgs, PairIndices(msgs)[k].0, PairIndices(msgs)[k].1)
    ensures forall k1, k2 :: 0 <= k1 < k2 < |PairIndices(msgs)| ==>
              PairIndices(msgs)[k1].1 < PairIndices(msgs)[k2].0
    decreases |msgs|
  {
    if msgs != [] {
      var n := |msgs| - 1;
      var q, m := msgs[..n], msgs[n];
      PairIndicesAnswered(q);
      LastTurnSpec(q);
      var t := LastTurn(q);
      var psq := PairIndices(q);
      forall k | 0 <= k < |psq|
        ensures Answered(msgs, psq[k].0, psq[k].1)
      {
        assert msgs == q + [m];
        AnsweredInLongerLog(q, m, psq[k].0, psq[k].1);
      }
      if m.role == Assistant && t >= 0 && q[t].role == User {
        assert Answered(msgs, t, n) by {
          assert forall l :: 0 <= l < |q| ==> q[l] == msgs[l];
        }
        forall k | 0 <= k < |psq|
          ensures psq[k].1 < t
        {
          assert !q[psq[k].1].role.Other?;
        }
      }
    }
  }

  /** Every answered exchange of the log is listed. */
  lemma {:induction false} PairIndicesComplete(msgs: seq<Message>, i: int, j: int)
    requires Answered(msgs, i, j)
    ensures exists k :: 0 <= k < |PairIndices(msgs)| && PairIndices(msgs)[k] == (i, j)
    decreases |msgs|
  {
    var n := |msgs| - 1;
    var q := msgs[..n];
    var psq, ps := PairIndices(q), PairIndices(msgs);
    if j < n {
      AnsweredInShorterLog(msgs, i, j);
      PairIndicesComplete(q, i, j);
      var k :| 0 <= k < |psq| && psq[k] == (i, j);
      assert ps[k] == psq[k];
    } else {
      AnsweredLast(msgs, i);
      assert ps[|psq|] == (i, j);
    }
  }

  /** Pair `k` of the history holds the contents of the messages `PairIndices(msgs)[k]`. */
  lemma {:induction false} PairIndicesGiveHistory(msgs: seq<Message>)
    ensures |PairIndices(msgs)| == |Replay(Start, msgs).history|
    ensures forall k :: 0 <= k < |PairIndices(msgs)| ==>
              && 0 <= PairIndices(msgs)[k].0 < |msgs| && 0 <= PairIndices(msgs)[k].1 < |msgs|
              && Replay(Start, msgs).history[k]
                 == (msgs[PairIndices(msgs)[k].0].content, msgs[PairIndices(msgs)[k].1].content)
    decreases |msgs|
  {
    if msgs != [] {
      var n := |msgs| - 1;
      var q, m := msgs[..n], msgs[n];
      assert msgs == q + [m];
      ReplaySnoc(Start, q, m);
      PairIndicesGiveHistory(q);
      PairIndicesAnswered(q);
      PendingIsLastTurn(q);
      assert forall l :: 0 <= l < |q| ==> q[l] == msgs[l];
    }
  }

  /**
   * The history is exactly the answered exchanges of the log, in message
   * order: pair `k` is the user message `PairIndices(msgs)[k].0` and the
   * assistant message `PairIndices(msgs)[k].1` that answered it; each pair
   * lies wholly before the next; and every answered exchange is one of them.
   */
  lemma PairsMatchExchanges(msgs: seq<Message>)
    ensures |PairIndices(msgs)| == |Replay(Start, msgs).history|
    ensures forall k :: 0 <= k < |PairIndices(msgs)| ==>
              && Answered(msgs, PairIndices(msgs)[k].0, PairIndices(msgs)[k].1)
              && Replay(Start, msgs).history[k]
                 == (msgs[PairIndices(msgs)[k].0].content, msgs[PairIndices(msgs)[k].1].content)
    ensures forall k1, k2 :: 0 <= k1 < k2 < |PairIndices(msgs)| ==>
              PairIndices(msgs)[k1].1 < PairIndices(msgs)[k2].0
    ensures forall i, j :: Answered(msgs, i, j) ==>
              exists k :: 0 <= k < |PairIndices(msgs)| && PairIndices(msgs)[k] == (i, j)
  {
    PairIndicesAnswered(msgs);
    PairIndicesGiveHistory(msgs);
    forall i, j | Answered(msgs, i, j)
      ensures exists k :: 0 <= k < |PairIndices(msgs)| && PairIndices(msgs)[k] == (i, j)
    {
      PairIndicesComplete(msgs, i, j);
    }
  }

  /**
   * Every pair of the history is a user message and the assistant message
   * that answered it.
   */
  lemma PairsAreGenuine(msgs: seq<Message>, k: int)
    requires 0 <= k < |Replay(Start, msgs).history|
    ensures exists i, j :: Answered(msgs, i, j)
                         && Replay(Start, msgs).history[k] == (msgs[i].content, msgs[j].content)
  {
    PairsMatchExchanges(msgs);
    var ps := PairIndices(msgs);
    assert Answered(msgs, ps[k].0, ps[k].1)
        && Replay(Start, msgs).history[k] == (msgs[ps[k].0].content, msgs[ps[k].1].content);
  }

  /**
   * No message is used twice: the four indices of two different pairs are
   * strictly increasing, so the pairs share no message.
   */
  lemma PairsAreDisjoint(msgs: seq<Message>, k1: int, k2: int)
    requires 0 <= k1 < k2 < |Replay(Start, msgs).history|
    ensures |PairIndices(msgs)| == |Replay(Start, msgs).history|
    ensures PairIndices(msgs)[k1].0 < PairIndices(msgs)[k1].1
            < PairIndices(msgs)[k2].0 < PairIndices(msgs)[k2].1
  {
    PairsMatchExchanges(msgs);
  }

  /** How many messages of the log have role `r`. */
  function CountRole(msgs: seq<Message>, r: Role): (n: nat)
    ensures n <= |msgs|
  {
    if msgs == [] then 0
    else CountRole(msgs[..|msgs| - 1], r) + (if msgs[|msgs| - 1].role == r then 1 else 0)
  }

  /**
   * Each pair uses up one assistant message and one user message, and the
   * pending question is a user message not yet used: so there are at most as
   * many pairs as assistant messages, and as user messages.
   */
  lemma {:induction false} PairCountBounds(msgs: seq<Message>)
    ensures var st := Replay(Start, msgs);
      && |st.history| <= CountRole(msgs, Assistant)
      && |st.history| + (if st.lastUser.Some? then 1 else 0) <= CountRole(msgs, User)
    decreases |msgs|
  {
    if msgs != [] {
      var q, m := msgs[..|msgs| - 1], msgs[|msgs| - 1];
      assert msgs == q + [m];
      ReplaySnoc(Start, q, m);
      PairCountBounds(q);
    }
  }

  // ---------------------------------------------------------------------
  // The log as the front end builds it
  // ---------------------------------------------------------------------

  /**
   * The new question is appended to the log before the history is built, so
   * it is left pending: it adds no pair and does not appear in the history.
   */
  lemma NewQuestionPending(msgs: seq<Message>, question: string)
    ensures var st := Replay(Start, msgs + [Message(User, question)]);
      st.history == Replay(Start, msgs).history && st.lastUser == Some(question)
  {
    ReplaySnoc(Start, msgs, Message(User, question));
  }

  /** An assistant message at the head of the log answers nothing and is skipped. */
  lemma LeadingAssistantSkipped(answer: string, msgs: seq<Message>)
    ensures Replay(Start, [Message(Assistant, answer)] + msgs) == Replay(Start, msgs)
  {
    assert ([Message(Assistant, answer)] + msgs)[1..] == msgs;
  }

  /** A question followed by its answer adds exactly that pair, whatever came before. */
  lemma ExchangeAddsPair(msgs: seq<Message>, question: string, answer: string)
    ensures Replay(Start, msgs + [Message(User, question), Message(Assistant, answer)]).history
         == Replay(Start, msgs).history + [(question, answer)]
  {
    var u, a := Message(User, question), Message(Assistant, answer);
    assert msgs + [u, a] == (msgs + [u]) + [a];
    ReplaySnoc(Start, msgs, u);
    ReplaySnoc(Start, msgs + [u], a);
  }

  /** Of two questions in a row only the later one is paired with the answer that follows. */
  lemma ConsecutiveQuestionsKeepLast(msgs: seq<Message>, q1: string, q2: string, answer: string)
    ensures Replay(Start, msgs + [Message(User, q1), Message(User, q2), Message(Assistant, answer)]).history
         == Replay(Start, msgs).history + [(q2, answer)]
  {
    var u1 := Message(User, q1);
    assert msgs + [u1, Message(User, q2), Message(Assistant, answer)]
        == (msgs + [u1]) + [Message(User, q2), Message(Assistant, answer)];
    ExchangeAddsPair(msgs + [u1], q2, answer);
    ReplaySnoc(Start, msgs, u1);
  }

  /** Two answers in a row: the second has no pending question and is skipped. */
  lemma SecondAnswerSkipped(msgs: seq<Message>, question: string, a1: string, a2: string)
    ensures Replay(Start, msgs + [Message(User, question), Message(Assistant, a1), Message(Assistant, a2)]).history
         == Replay(Start, msgs).history + [(question, a1)]
  {
    var u, x1, x2 := Message(User, question), Message(Assistant, a1), Message(Assistant, a2);
    assert msgs + [u, x1, x2] == (msgs + [u, x1]) + [x2];
    ExchangeAddsPair(msgs, question, a1);
    ReplaySnoc(Start, msgs + [u, x1], x2);
    ReplaySnoc(Start, msgs, u);
    assert msgs + [u, x1] == (msgs + [u]) + [x1];
    ReplaySnoc(Start, msgs + [u], x1);
  }
}
