/**
 * The chat widget's handlers: they append the user's text as a new turn and
 * write replies into the last turn of the widget's list, in place.
 */
module ChatUi {
  import opened Wrappers
  import opened History
  import Escaper

  /** `chat_history[-1]` of an empty list raises `IndexError`. */
  datatype UiError = EmptyChatHistory

  /** The list after `query_user_input`: unchanged for empty input, otherwise
      one more turn holding the rendered input and no reply. */
  function WithQuery(turns: seq<Turn>, input: string): (after: seq<Turn>)
    ensures input == "" ==> after == turns
    ensures input != "" ==>
      (|after| == |turns| + 1 && after[..|turns|] == turns
       && after[|turns|] == Turn(Some(Escaper.Render(input)), None))
  {
    if input == "" then turns else turns + [Turn(Some(Escaper.Render(input)), None)]
  }

  /** `query_user_input`: clears the input box and, unless the input is empty,
      extends the widget's list in place with one unanswered turn. */
  method QueryUserInput(input: string, chatHistory: TurnList) returns (cleared: string, same: TurnList)
    modifies chatHistory
    ensures cleared == "" && same == chatHistory
    ensures chatHistory.turns == WithQuery(old(chatHistory.turns), input)
  {
    if input != "" {
      var html := Escaper.ParseText(input);
      chatHistory.turns := chatHistory.turns + [Turn(Some(html), None)];
    }
    return "", chatHistory;
  }

  /** A query followed by the reconciliation of a later reply: the new turn is
      the question, asked with the kept history or, when there is none, with
      the messages of every earlier turn. */
  lemma QueryIsAsked(history: seq<Message>, turns: seq<Turn>, input: string)
    requires input != ""
    ensures var q := Some(Escaper.Render(input));
      Reconcile(history, WithQuery(turns, input)) == Asked(q, if history == [] then Rebuild(turns) else history)
  {
    AskPending(turns, Escaper.Render(input));
  }

  /** `llm_reply` of the HTTP front end: the request's result goes into the last
      turn and the same list is returned. The request is made before the list
      is looked at, so an empty list raises only afterwards. */
  method LlmReply(chatHistory: TurnList, reply: string) returns (r: Result<TurnList, UiError>)
    modifies chatHistory
    ensures old(chatHistory.turns) == [] ==> r == Failure(EmptyChatHistory) && chatHistory.turns == []
    ensures old(chatHistory.turns) != [] ==>
      r == Success(chatHistory) && chatHistory.turns == Answer(old(chatHistory.turns), reply)
  {
    if |chatHistory.turns| == 0 {
      return Failure(EmptyChatHistory);
    }
    chatHistory.turns := Answer(chatHistory.turns, reply);
    return Success(chatHistory);
  }

  /** The list as each yield of `llm_stream_reply` shows it: the last turn's
      reply is the latest chunk, not the chunks so far. */
  function StreamSnapshots(turns: seq<Turn>, chunks: seq<string>): (shown: seq<seq<Turn>>)
    requires turns != []
    ensures |shown| == |chunks|
    ensures forall k :: 0 <= k < |chunks| ==> shown[k] == Answer(turns, chunks[k])
  {
    seq(|chunks|, k requires 0 <= k < |chunks| => Answer(turns, chunks[k]))
  }

  /** `llm_stream_reply`: for every chunk of the streamed reply, overwrites the
      last turn's reply with it and yields the list; `snapshots` holds the
      list as each yield shows it. With no chunk nothing happens; with a chunk and an
      empty list the first assignment raises. */
  method LlmStreamReply(chatHistory: TurnList, chunks: seq<string>)
    returns (snapshots: seq<seq<Turn>>, err: Option<UiError>)
    modifies chatHistory
    ensures chunks == [] ==> snapshots == [] && err == None && chatHistory.turns == old(chatHistory.turns)
    ensures chunks != [] && old(chatHistory.turns) == [] ==>
      snapshots == [] && err == Some(EmptyChatHistory) && chatHistory.turns == []
    ensures chunks != [] && old(chatHistory.turns) != [] ==>
      err == None && snapshots == StreamSnapshots(old(chatHistory.turns), chunks)
      && chatHistory.turns == Answer(old(chatHistory.turns), chunks[|chunks| - 1])
  {
    snapshots := [];
    err := None;
    ghost var original := chatHistory.turns;
    for i := 0 to |chunks|
      invariant chatHistory.turns == (if i == 0 || original == [] then original else Answer(original, chunks[i - 1]))
      invariant original != [] ==> snapshots == StreamSnapshots(original, chunks[..i])
      invariant original == [] ==> i == 0 && snapshots == [] && chatHistory.turns == []
    {
      if |chatHistory.turns| == 0 {
        return snapshots, Some(EmptyChatHistory);
      }
      chatHistory.turns := Answer(chatHistory.turns, chunks[i]);
      snapshots := snapshots + [chatHistory.turns];
      assert StreamSnapshots(original, chunks[..i + 1])
        == StreamSnapshots(original, chunks[..i]) + [Answer(original, chunks[i])];
    }
    assert chunks[..|chunks|] == chunks;
  }

  /** Overwriting, not accumulating: the last turn ends up holding the final
      chunk alone, and answering twice is the same as answering with the
      second reply only. */
  lemma AnswerOverwrites(turns: seq<Turn>, first: string, second: string)
    requires turns != []
    ensures Answer(Answer(turns, first), second) == Answer(turns, second)
  {
  }
}
