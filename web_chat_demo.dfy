/**
 * The single-process web demo: the same reconciliation as the HTTP wrapper,
 * over a module-level `MESSAGES` list instead of an instance field.
 */
module WebChatDemo {
  import opened Wrappers
  import opened History
  import opened ModelWrapper

  /** The module's global state. */
  class Globals {
    /** `MESSAGES`: the model's message history. */
    var messages: seq<Message>

    constructor ()
      ensures messages == []
    {
      messages := [];
    }

    /** `llm_reply`: reconciles the widget's turns with `MESSAGES`, asks the
        model, replaces `MESSAGES` by the history it returns and writes the
        reply into the last turn of the same list, which it returns. */
    method LlmReply(chatHistory: TurnList, sampling: Sampling, chat: ChatFn)
      returns (r: Result<TurnList, ChatError>)
      modifies this, chatHistory
      ensures var (outcome, kept) := ReplyOutcome(old(messages), old(chatHistory.turns), sampling, chat);
        messages == kept
        && (outcome.Success? ==> r == Success(chatHistory) && chatHistory.turns == outcome.value)
        && (outcome.Failure? ==> r == Failure(outcome.error) && chatHistory.turns == old(chatHistory.turns))
    {
      var reconciled := ReconcileHistory(messages, chatHistory.turns);
      match reconciled
      case NoLastTurn =>
        return Failure(EmptyChatHistory);
      case Unbound(appended) =>
        messages := appended;
        return Failure(UnboundQuestion);
      case Asked(question, asked) =>
        messages := asked;
        var out := chat(question, messages, sampling);
        messages := out.history;
        chatHistory.turns := Answer(chatHistory.turns, out.reply);
        return Success(chatHistory);
    }

    /** `clear_messages`: rebinds `MESSAGES` to a new empty list. */
    method ClearMessages()
      modifies this
      ensures messages == []
    {
      messages := [];
    }
  }
}
