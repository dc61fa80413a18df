/** `arxiv_sanity_bot/models/chatGPT.py`: the older ChatGPT summarizer.
    Each of up to `CHATGPT_N_TRIALS` attempts sends the same fresh
    two-message history; the first stripped summary within the tweet budget
    is returned, and when none is the process exits with status -1.

    The completion endpoint is the oracle `client`, answering call number
    `k` with history `h` by `client(k, h)`. */
module ChatGPT {
  import opened PyStrings
  import opened Config
  import opened Chat

  /** One `openai.ChatCompletion.create` call: content, or an exception. */
  datatype ChatReply = Reply(content: string) | CreateRaised

  type ChatClient = (nat, seq<Message>) -> ChatReply

  /** A returned summary, the `sys.exit` that `FatalErrorEvent` performs,
      or the exception of a completion call, which nothing catches. */
  datatype Outcome = Returned(text: string) | Exited(code: int) | Raised

  /** The history every attempt sends. */
  function PromptHistory(abstractText: string): (h: seq<Message>)
    ensures |h| == 2 && h[0] == Message(System, LengthLimitInstructions(TweetTextLength))
    ensures h[1] == Message(User, SentenceRequest(abstractText))
  {
    [Message(System, LengthLimitInstructions(TweetTextLength)), Message(User, SentenceRequest(abstractText))]
  }

  /** `summaries[n - calls]` is the stripped reply to call `n`, made with
      `history`. */
  predicate Replied(client: ChatClient, history: seq<Message>, calls: nat, summaries: seq<string>) {
    forall n :: calls <= n < calls + |summaries| ==>
      client(n, history).Reply? && summaries[n - calls] == Strip(client(n, history).content)
  }

  lemma RepliedNext(client: ChatClient, history: seq<Message>, calls: nat, summaries: seq<string>)
    requires Replied(client, history, calls, summaries)
    requires client(calls + |summaries|, history).Reply?
    ensures Replied(client, history, calls, summaries + [Strip(client(calls + |summaries|, history).content)])
  {
    var s' := summaries + [Strip(client(calls + |summaries|, history).content)];
    forall n | calls <= n < calls + |s'|
      ensures client(n, history).Reply? && s'[n - calls] == Strip(client(n, history).content)
    {
      if n < calls + |summaries| {
        assert s'[n - calls] == summaries[n - calls];
      }
    }
  }

  /** `ChatGPT.summarize_abstract`. `summaries[n - calls]` is the stripped
      reply to call `n`, every call carrying `PromptHistory`. */
  method SummarizeAbstract(abstractText: string, client: ChatClient, calls: nat)
    returns (r: Outcome, next: nat, summaries: seq<string>)
    ensures calls < next <= calls + ChatGptTrials
    ensures next - calls == |summaries| + (if r.Raised? then 1 else 0)
    ensures Replied(client, PromptHistory(abstractText), calls, summaries)
    ensures !r.Returned? ==> AllTooLong(summaries)
    ensures r.Returned? ==> summaries != [] && AllTooLong(summaries[..|summaries| - 1])
    ensures r.Raised? <==> client(next - 1, PromptHistory(abstractText)).CreateRaised?
    ensures r.Returned? ==> r.text == summaries[|summaries| - 1] && |r.text| <= TweetTextLength
    ensures r.Exited? <==> |summaries| == ChatGptTrials && |summaries[ChatGptTrials - 1]| > TweetTextLength
    ensures r.Exited? ==> r.code == -1
  {
    summaries := [];
    var history := PromptHistory(abstractText);
    var i := 0;
    while i < ChatGptTrials
      invariant 0 <= i <= ChatGptTrials && |summaries| == i
      invariant Replied(client, history, calls, summaries)
      invariant AllTooLong(summaries)
    {
      var reply := client(calls + i, history);
      if reply.CreateRaised? {
        return Raised, calls + i + 1, summaries;
      }
      var summary := Strip(reply.content);
      RepliedNext(client, history, calls, summaries);
      ghost var before := summaries;
      summaries := summaries + [summary];
      if |summary| <= TweetTextLength {
        assert summaries[..|summaries| - 1] == before;
        return Returned(summary), calls + i + 1, summaries;
      }
      AllTooLongNext(before, summary);
      i := i + 1;
    }
    assert |summaries[ChatGptTrials - 1]| > TweetTextLength;
    return Exited(-1), calls + ChatGptTrials, summaries;
  }
}
