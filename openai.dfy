/** `arxiv_sanity_bot/models/openai.py`: the OpenAI-backed summarizer.
    A completion call is retried up to `CHATGPT_N_TRIALS` times; a summary
    longer than the tweet budget is sent back with a request to shorten
    it, up to `CHATGPT_N_TRIALS` rounds.

    The completion endpoint is the oracle `client`, which answers call
    number `k` with history `h` by `client(k, h)`; the calls of one run are
    numbered consecutively from `calls`. Sleeps and logging are left out. */
module OpenAI {
  import opened PyStrings
  import opened Config
  import opened Chat

  /** One `chat.completions.create` call: it returns content, returns a
      message whose content is `None`, or raises. */
  datatype Completion = Answer(content: string) | NoContent | CreateRaised

  type Client = (nat, seq<Message>) -> Completion

  /** A returned text, a `FatalError`, or another exception that
      propagates. */
  datatype Outcome = Returned(text: string) | Fatal | Raised

  /** `_call_openai`: the first completion that does not raise decides;
      its content is stripped (a `None` content makes `.strip()` raise,
      outside the `try`). After `CHATGPT_N_TRIALS` raising calls,
      `FatalError`. */
  method CallOpenAI(history: seq<Message>, client: Client, calls: nat) returns (r: Outcome, next: nat)
    ensures calls < next <= calls + ChatGptTrials
    ensures forall k :: calls <= k < next - 1 ==> client(k, history).CreateRaised?
    ensures r.Returned? <==> client(next - 1, history).Answer?
    ensures r.Returned? ==> r.text == Strip(client(next - 1, history).content)
    ensures r.Raised? <==> client(next - 1, history).NoContent?
    ensures r.Fatal? <==> next == calls + ChatGptTrials && client(next - 1, history).CreateRaised?
  {
    var i := 0;
    while i < ChatGptTrials
      invariant 0 <= i <= ChatGptTrials
      invariant forall k :: calls <= k < calls + i ==> client(k, history).CreateRaised?
    {
      var completion := client(calls + i, history);
      if completion.CreateRaised? {
        i := i + 1;
        continue;
      }
      if completion.NoContent? {
        return Raised, calls + i + 1;
      }
      return Returned(Strip(completion.content)), calls + i + 1;
    }
    return Fatal, calls + ChatGptTrials;
  }

  /** The system prompt and the request to summarize `abstractText`. */
  function InitialHistory(abstractText: string): (h: seq<Message>)
    ensures |h| == 2 && h[0].role == System && h[1].role == User
  {
    [Message(System, TweetBotInstructions), Message(User, SummarizeRequest(abstractText))]
  }

  /** What a rejected summary adds: the summary as the assistant's turn,
      then the request to shorten it. */
  function Rejection(summary: string): (h: seq<Message>)
    ensures |h| == 2 && h[0] == Message(Assistant, AssistantText(summary))
    ensures h[1] == Message(User, TooLong(|summary|))
  {
    [Message(Assistant, AssistantText(summary)), Message(User, TooLong(|summary|))]
  }

  /** The history sent once `summaries` have been rejected in turn: the
      initial history, then each summary's rejection. */
  function RoundHistory(abstractText: string, summaries: seq<string>): seq<Message>
    decreases |summaries|
  {
    if summaries == [] then InitialHistory(abstractText)
    else RoundHistory(abstractText, summaries[..|summaries| - 1]) + Rejection(summaries[|summaries| - 1])
  }

  /** After `k` rejections the history holds `2 + 2k` messages, it extends
      every earlier history, and it ends with the rejection of the last
      summary: nothing sent is ever taken back. */
  lemma {:induction false} RoundHistoryGrows(abstractText: string, summaries: seq<string>, k: nat)
    requires k <= |summaries|
    ensures |RoundHistory(abstractText, summaries[..k])| == 2 + 2 * k
    ensures forall j :: 0 <= j <= k ==> RoundHistory(abstractText, summaries[..j]) <= RoundHistory(abstractText, summaries[..k])
    ensures k > 0 ==> RoundHistory(abstractText, summaries[..k])[2 * k..] == Rejection(summaries[k - 1])
  {
    if k > 0 {
      RoundHistoryGrows(abstractText, summaries, k - 1);
      assert summaries[..k][..k - 1] == summaries[..k - 1];
      var h := RoundHistory(abstractText, summaries[..k]);
      assert h == RoundHistory(abstractText, summaries[..k - 1]) + Rejection(summaries[k - 1]);
      forall j | 0 <= j <= k ensures RoundHistory(abstractText, summaries[..j]) <= h {
        if j < k {
          assert RoundHistory(abstractText, summaries[..j]) <= RoundHistory(abstractText, summaries[..k - 1]);
        }
      }
    }
  }

  /** Rejecting one more summary extends the history by its rejection. */
  lemma RoundHistoryNext(abstractText: string, summaries: seq<string>, text: string)
    ensures RoundHistory(abstractText, summaries + [text]) == RoundHistory(abstractText, summaries) + Rejection(text)
  {
    assert (summaries + [text])[..|summaries|] == summaries;
  }

  /** Call `j` is the first call from `start` on that does not raise when
      sent `h`, within the `CHATGPT_N_TRIALS` attempts of one
      `_call_openai`, and `text` is its stripped answer. */
  predicate FirstAnswer(client: Client, h: seq<Message>, start: nat, j: nat, text: string) {
    && start <= j < start + ChatGptTrials
    && (forall i :: start <= i < j ==> client(i, h).CreateRaised?)
    && client(j, h).Answer?
    && text == Strip(client(j, h).content)
  }

  /** A `_call_openai` from call `start` on that did not return: every call
      before `next - 1` raised, and call `next - 1` gave no content (`r` is
      `Raised`) or was the last attempt and raised too (`r` is `Fatal`). */
  predicate CallFailed(client: Client, h: seq<Message>, start: nat, r: Outcome, next: nat) {
    && !r.Returned?
    && start < next <= start + ChatGptTrials
    && (forall i :: start <= i < next - 1 ==> client(i, h).CreateRaised?)
    && (r.Raised? ==> client(next - 1, h).NoContent?)
    && (r.Fatal? ==> next == start + ChatGptTrials && client(next - 1, h).CreateRaised?)
  }

  /** The first call of round `k`: the first call of the run, or the one
      after the call that answered round `k - 1`. */
  function RoundStart(calls: nat, answeredBy: seq<nat>, k: nat): nat
    requires k <= |answeredBy|
  {
    if k == 0 then calls else answeredBy[k - 1] + 1
  }

  /** Round `k` began where round `k - 1` ended and `summaries[k]` is the
      first answer of that round to the history of the summaries before
      it, given by call `answeredBy[k]`. */
  predicate Answered(abstractText: string, client: Client, calls: nat,
                     summaries: seq<string>, answeredBy: seq<nat>) {
    |answeredBy| == |summaries|
    && forall k :: 0 <= k < |summaries| ==> RoundAnswered(abstractText, client, calls, summaries, answeredBy, k)
  }

  /** Round `k` of `Answered`. */
  predicate RoundAnswered(abstractText: string, client: Client, calls: nat,
                          summaries: seq<string>, answeredBy: seq<nat>, k: nat)
    requires k < |summaries| && |answeredBy| == |summaries|
  {
    FirstAnswer(client, RoundHistory(abstractText, summaries[..k]), RoundStart(calls, answeredBy, k), answeredBy[k], summaries[k])
  }

  /** A run of `summarize_abstract` from call `calls` on: the rounds in
      `summaries` answered in turn, then either the last summary fitted and
      was returned, or every summary was too long and the next round's
      `_call_openai` failed, or there was no round left (`FatalError`). */
  predicate Summarized(abstractText: string, client: Client, calls: nat,
                       r: Outcome, next: nat, summaries: seq<string>, answeredBy: seq<nat>) {
    && |summaries| <= ChatGptTrials
    && Answered(abstractText, client, calls, summaries, answeredBy)
    && var start := RoundStart(calls, answeredBy, |summaries|);
       && (r.Returned? ==>
             && summaries != [] && AllTooLong(summaries[..|summaries| - 1])
             && |summaries[|summaries| - 1]| <= TweetTextLength
             && r.text == summaries[|summaries| - 1] && next == start)
       && (!r.Returned? ==>
             && AllTooLong(summaries)
             && if |summaries| < ChatGptTrials
                then CallFailed(client, RoundHistory(abstractText, summaries), start, r, next)
                else r.Fatal? && next == start)
  }

  /** An answer that opens the next round: it is the first answer of that
      round, so the rounds stay chained. */
  lemma AnsweredNext(abstractText: string, client: Client, calls: nat,
                     summaries: seq<string>, answeredBy: seq<nat>, j: nat, text: string)
    requires Answered(abstractText, client, calls, summaries, answeredBy)
    requires FirstAnswer(client, RoundHistory(abstractText, summaries), RoundStart(calls, answeredBy, |summaries|), j, text)
    ensures Answered(abstractText, client, calls, summaries + [text], answeredBy + [j])
    ensures RoundStart(calls, answeredBy + [j], |summaries| + 1) == j + 1
  {
    var s', a' := summaries + [text], answeredBy + [j];
    forall k | 0 <= k < |s'|
      ensures RoundAnswered(abstractText, client, calls, s', a', k)
    {
      assert s'[..k] == summaries[..k];
      assert RoundStart(calls, a', k) == RoundStart(calls, answeredBy, k);
      if k < |summaries| {
        assert RoundAnswered(abstractText, client, calls, summaries, answeredBy, k);
      } else {
        assert s'[..k] == summaries;
      }
    }
  }

  /** Taking one more element of `s` appends it. */
  lemma TakeNext<T>(s: seq<T>, k: nat)
    requires k < |s|
    ensures s[..k + 1] == s[..k] + [s[k]]
  {
  }

  /** Each round starts at least one call after the one before it. */
  lemma {:induction false} RoundStartsGrow(abstractText: string, client: Client, calls: nat,
                                           summaries: seq<string>, answeredBy: seq<nat>, k: nat)
    requires Answered(abstractText, client, calls, summaries, answeredBy) && k <= |summaries|
    ensures calls + k <= RoundStart(calls, answeredBy, k)
  {
    if k > 0 {
      RoundStartsGrow(abstractText, client, calls, summaries, answeredBy, k - 1);
      assert RoundAnswered(abstractText, client, calls, summaries, answeredBy, k - 1);
    }
  }

  /** One call decides a round: two first answers from the same start to
      the same history are the same call and the same text. */
  lemma FirstAnswerUnique(client: Client, h: seq<Message>, start: nat, j1: nat, t1: string, j2: nat, t2: string)
    requires FirstAnswer(client, h, start, j1, t1) && FirstAnswer(client, h, start, j2, t2)
    ensures j1 == j2 && t1 == t2
  {
  }

  /** A `_call_openai` either answers or fails, never both. */
  lemma AnswerOrFailure(client: Client, h: seq<Message>, start: nat, j: nat, text: string, r: Outcome, next: nat)
    ensures !(FirstAnswer(client, h, start, j, text) && CallFailed(client, h, start, r, next))
  {
  }

  /** A failed `_call_openai` fails in one way only. */
  lemma CallFailedUnique(client: Client, h: seq<Message>, start: nat, r1: Outcome, n1: nat, r2: Outcome, n2: nat)
    requires CallFailed(client, h, start, r1, n1) && CallFailed(client, h, start, r2, n2)
    ensures r1 == r2 && n1 == n2
  {
  }

  /** Two chains of answered rounds agree on every round both reached. */
  lemma {:induction false} AnsweredAgree(abstractText: string, client: Client, calls: nat,
                                         s1: seq<string>, a1: seq<nat>, s2: seq<string>, a2: seq<nat>, m: nat)
    requires Answered(abstractText, client, calls, s1, a1) && Answered(abstractText, client, calls, s2, a2)
    requires m <= |s1| && m <= |s2|
    ensures s1[..m] == s2[..m] && a1[..m] == a2[..m]
    decreases m
  {
    if m > 0 {
      var k := m - 1;
      AnsweredAgree(abstractText, client, calls, s1, a1, s2, a2, k);
      assert RoundStart(calls, a1, k) == RoundStart(calls, a2, k) by {
        if k > 0 {
          assert a1[k - 1] == a1[..k][k - 1] == a2[..k][k - 1] == a2[k - 1];
        }
      }
      assert RoundAnswered(abstractText, client, calls, s1, a1, k);
      assert RoundAnswered(abstractText, client, calls, s2, a2, k);
      FirstAnswerUnique(client, RoundHistory(abstractText, s1[..k]), RoundStart(calls, a1, k), a1[k], s1[k], a2[k], s2[k]);
      TakeNext(s1, k);
      TakeNext(s2, k);
      TakeNext(a1, k);
      TakeNext(a2, k);
    }
  }

  /** No run stops before a round that another run answered. */
  lemma NoShorterRun(abstractText: string, client: Client, calls: nat,
                     r1: Outcome, n1: nat, s1: seq<string>, a1: seq<nat>,
                     r2: Outcome, n2: nat, s2: seq<string>, a2: seq<nat>)
    requires Summarized(abstractText, client, calls, r1, n1, s1, a1)
    requires Summarized(abstractText, client, calls, r2, n2, s2, a2)
    ensures |s2| <= |s1|
  {
    if |s1| < |s2| {
      var m := |s1|;
      AnsweredAgree(abstractText, client, calls, s1, a1, s2, a2, m);
      assert s1 == s2[..m] && a1 == a2[..m];
      if !r1.Returned? {
        var h := RoundHistory(abstractText, s1);
        assert RoundStart(calls, a1, m) == RoundStart(calls, a2, m) by {
          if m > 0 {
            assert a1[m - 1] == a2[m - 1];
          }
        }
        assert RoundAnswered(abstractText, client, calls, s2, a2, m);
        assert s2[..m] == s1;
        AnswerOrFailure(client, h, RoundStart(calls, a2, m), a2[m], s2[m], r1, n1);
      }
    }
  }

  /** The run is determined by the client: two runs from the same call
      with the same abstract give the same outcome, calls, summaries and
      answering calls. */
  lemma SummarizedUnique(abstractText: string, client: Client, calls: nat,
                         r1: Outcome, n1: nat, s1: seq<string>, a1: seq<nat>,
                         r2: Outcome, n2: nat, s2: seq<string>, a2: seq<nat>)
    requires Summarized(abstractText, client, calls, r1, n1, s1, a1)
    requires Summarized(abstractText, client, calls, r2, n2, s2, a2)
    ensures r1 == r2 && n1 == n2 && s1 == s2 && a1 == a2
  {
    NoShorterRun(abstractText, client, calls, r1, n1, s1, a1, r2, n2, s2, a2);
    NoShorterRun(abstractText, client, calls, r2, n2, s2, a2, r1, n1, s1, a1);
    AnsweredAgree(abstractText, client, calls, s1, a1, s2, a2, |s1|);
    assert s1 == s2 && a1 == a2 by {
      assert s1 == s1[..|s1|] && s2 == s2[..|s2|];
      assert a1 == a1[..|a1|] && a2 == a2[..|a2|];
    }
    if !r1.Returned? && !r2.Returned? && |s1| < ChatGptTrials {
      CallFailedUnique(client, RoundHistory(abstractText, s1), RoundStart(calls, a1, |s1|), r1, n1, r2, n2);
    }
  }

  /** What a run promises in the terms of `summarize_abstract`: at most 10
      rounds, every summary but the last too long, a result exactly when
      the last one fits, `FatalError` after 10 that do not, and an earlier
      stop only by a failed completion. */
  lemma SummarizedOutcome(abstractText: string, client: Client, calls: nat,
                          r: Outcome, next: nat, summaries: seq<string>, answeredBy: seq<nat>)
    requires Summarized(abstractText, client, calls, r, next, summaries, answeredBy)
    ensures calls + |summaries| <= next && calls < next
    ensures r.Returned? <==> summaries != [] && |summaries[|summaries| - 1]| <= TweetTextLength
    ensures r.Returned? ==> r.text == summaries[|summaries| - 1] && |r.text| <= TweetTextLength
    ensures |summaries| == ChatGptTrials && |summaries[ChatGptTrials - 1]| > TweetTextLength ==> r.Fatal?
    ensures r.Raised? ==> |summaries| < ChatGptTrials
                          && client(next - 1, RoundHistory(abstractText, summaries)).NoContent?
  {
    if summaries != [] && !r.Returned? {
      assert |summaries[|summaries| - 1]| > TweetTextLength;
    }
    RoundStartsGrow(abstractText, client, calls, summaries, answeredBy, |summaries|);
  }

  /** `OpenAI.summarize_abstract`. `summaries` are the summaries the rounds
      produced, in order, and `answeredBy[k]` the number of the call that
      produced `summaries[k]`; together with the outcome and the next call
      number they form the one run `Summarized` allows. */
  method SummarizeAbstract(abstractText: string, client: Client, calls: nat)
    returns (r: Outcome, next: nat, summaries: seq<string>, answeredBy: seq<nat>)
    ensures calls < next
    ensures Summarized(abstractText, client, calls, r, next, summaries, answeredBy)
  {
    var history := InitialHistory(abstractText);
    summaries, answeredBy := [], [];
    next := calls;
    var round := 0;
    while round < ChatGptTrials
      invariant 0 <= round <= ChatGptTrials && |summaries| == round
      invariant history == RoundHistory(abstractText, summaries)
      invariant Answered(abstractText, client, calls, summaries, answeredBy)
      invariant next == RoundStart(calls, answeredBy, round) && (round > 0 ==> calls < next)
      invariant AllTooLong(summaries)
    {
      var reply, n := CallOpenAI(history, client, next);
      if !reply.Returned? {
        assert CallFailed(client, history, next, reply, n);
        return reply, n, summaries, answeredBy;
      }
      assert FirstAnswer(client, history, next, n - 1, reply.text);
      AnsweredNext(abstractText, client, calls, summaries, answeredBy, n - 1, reply.text);
      RoundHistoryNext(abstractText, summaries, reply.text);
      ghost var before := summaries;
      summaries := summaries + [reply.text];
      answeredBy := answeredBy + [n - 1];
      next := n;
      if |reply.text| <= TweetTextLength {
        assert summaries[..|summaries| - 1] == before;
        return reply, next, summaries, answeredBy;
      }
      AllTooLongNext(before, reply.text);
      history := history + Rejection(reply.text);
      round := round + 1;
    }
    return Fatal, next, summaries, answeredBy;
  }

  /** The system prompt and the request to rephrase the round summary. */
  function BotSummaryHistory(considered: int, reported: int): (h: seq<Message>)
    ensures |h| == 2 && h[0].role == System && h[1].role == User
  {
    [Message(System, HelpfulAssistant), Message(User, VariationRequest(considered, reported))]
  }

  /** `generate_bot_summary`: one `_call_openai` on a fresh two-message
      history, whose outcome it returns. */
  method GenerateBotSummary(considered: int, reported: int, client: Client, calls: nat) returns (r: Outcome, next: nat)
    ensures calls < next <= calls + ChatGptTrials
    ensures forall k :: calls <= k < next - 1 ==> client(k, BotSummaryHistory(considered, reported)).CreateRaised?
    ensures r.Returned? <==> client(next - 1, BotSummaryHistory(considered, reported)).Answer?
    ensures r.Returned? ==> r.text == Strip(client(next - 1, BotSummaryHistory(considered, reported)).content)
    ensures r.Raised? <==> client(next - 1, BotSummaryHistory(considered, reported)).NoContent?
    ensures r.Fatal? <==> next == calls + ChatGptTrials
                          && client(next - 1, BotSummaryHistory(considered, reported)).CreateRaised?
  {
    r, next := CallOpenAI(BotSummaryHistory(considered, reported), client, calls);
  }
}
