/** The chat messages both LLM clients send: a role and a content. The
    prompt wording is not modelled; each kind of content is a constructor
    carrying the values the source interpolates into it. */
module Chat {
  import opened Config

  datatype Role = System | User | Assistant

  datatype Content =
    | TweetBotInstructions                              // OpenAI system prompt
    | SummarizeRequest(abstractText: string)            // OpenAI: summarize in one short tweet
    | AssistantText(text: string)                       // a summary sent back as the assistant's turn
    | TooLong(length: nat)                              // "The tweet was too long (<length> characters)"
    | HelpfulAssistant                                  // system prompt of the bot summary
    | VariationRequest(considered: int, reported: int)  // rephrase the round summary sentence
    | LengthLimitInstructions(limit: nat)               // ChatGPT system prompt with the length limit
    | SentenceRequest(abstractText: string)             // ChatGPT: summarize in one short sentence

  datatype Message = Message(role: Role, content: Content)

  /** Every summary over the tweet budget. */
  predicate AllTooLong(summaries: seq<string>) {
    forall k :: 0 <= k < |summaries| ==> |summaries[k]| > TweetTextLength
  }

  lemma AllTooLongNext(summaries: seq<string>, text: string)
    requires AllTooLong(summaries) && |text| > TweetTextLength
    ensures AllTooLong(summaries + [text])
  {
  }
}
