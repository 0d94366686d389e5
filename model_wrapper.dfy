/**
 * The `ChatGLM3` wrapper served over HTTP: it keeps the model's own message
 * history between requests and answers the widget's last turn.
 */
module ModelWrapper {
  import opened Wrappers
  import opened History

  /** `top_p` and `temperature`, handed to the model as they come. */
  datatype Sampling = Sampling(topP: real, temperature: real)

  /** What `model.chat` returns: the reply and the history to keep. */
  datatype ChatOutput = ChatOutput(reply: string, history: seq<Message>)

  /** `model.chat(tokenizer, question, history=…, top_p=…, temperature=…)`;
      the model itself is not part of this model, so any function will do. */
  type ChatFn = (Option<string>, seq<Message>, Sampling) -> ChatOutput

  /** The exceptions `chat_reply` can end in. */
  datatype ChatError =
    | UnboundQuestion  // `UnboundLocalError`: no turn was left unanswered
    | EmptyChatHistory // `IndexError`: `chat_history[-1]` of an empty list

  /** The outcome of `chat_reply` as a whole: the error it raises, if any, and
      the history the wrapper keeps in either case. */
  function ReplyOutcome(history: seq<Message>, turns: seq<Turn>, sampling: Sampling, chat: ChatFn)
    : (outcome: (Result<seq<Turn>, ChatError>, seq<Message>))
    ensures outcome.0.Success? <==> Reconcile(history, turns).Asked?
    ensures outcome.0.Success? ==> |outcome.0.value| == |turns| > 0
    ensures outcome.0 == Failure(EmptyChatHistory) ==> outcome.1 == history
  {
    match Reconcile(history, turns)
    case Asked(question, asked) =>
      var out := chat(question, asked, sampling);
      (Success(Answer(turns, out.reply)), out.history)
    case Unbound(appended) => (Failure(UnboundQuestion), appended)
    case NoLastTurn => (Failure(EmptyChatHistory), history)
  }

  class ChatGLM3 {
    /** The model's message history, kept between requests. */
    var history: seq<Message>

    /** Loading the tokenizer and the model is not part of this model. */
    constructor ()
      ensures history == []
    {
      history := [];
    }

    /** `chat_reply`: reconciles the widget's turns with the kept history, asks
        the model, keeps the history it returns and writes the reply into the
        widget's last turn, returning that same list. When it raises, the
        widget's list is untouched, but the messages appended before an
        `UnboundLocalError` stay in the kept history. */
    method ChatReply(chatHistory: TurnList, sampling: Sampling, chat: ChatFn)
      returns (r: Result<TurnList, ChatError>)
      modifies this, chatHistory
      ensures var (outcome, kept) := ReplyOutcome(old(history), old(chatHistory.turns), sampling, chat);
        history == kept
        && (outcome.Success? ==> r == Success(chatHistory) && chatHistory.turns == outcome.value)
        && (outcome.Failure? ==> r == Failure(outcome.error) && chatHistory.turns == old(chatHistory.turns))
    {
      var reconciled := ReconcileHistory(history, chatHistory.turns);
      match reconciled
      case NoLastTurn =>
        return Failure(EmptyChatHistory);
      case Unbound(appended) =>
        history := appended;
        return Failure(UnboundQuestion);
      case Asked(question, asked) =>
        history := asked;
        var out := chat(question, history, sampling);
        history := out.history;
        chatHistory.turns := Answer(chatHistory.turns, out.reply);
        return Success(chatHistory);
    }

    /** `clear_history`: empties the kept history and returns nothing. */
    method ClearHistory()
      modifies this
      ensures history == []
    {
      history := [];
    }
  }

  /** The kept history is the model's: after a successful reply, whatever the
      history was, the wrapper keeps exactly the history the model returned,
      and the widget's earlier turns are left as they were. */
  lemma ReplyKeepsModelHistory(history: seq<Message>, turns: seq<Turn>, sampling: Sampling, chat: ChatFn)
    requires ReplyOutcome(history, turns, sampling, chat).0.Success?
    ensures var r := Reconcile(history, turns);
      ReplyOutcome(history, turns, sampling, chat).1 == chat(r.question, r.history, sampling).history
    ensures var answered := ReplyOutcome(history, turns, sampling, chat).0.value;
      answered[..|turns| - 1] == turns[..|turns| - 1]
      && answered[|turns| - 1].reply == Some(chat(Reconcile(history, turns).question, Reconcile(history, turns).history, sampling).reply)
  {
    var r := Reconcile(history, turns);
    var answered := ReplyOutcome(history, turns, sampling, chat).0.value;
    assert answered == Answer(turns, chat(r.question, r.history, sampling).reply);
  }

  /** A fresh wrapper asked about a widget list whose last turn is unanswered
      asks that turn's question, with the earlier turns as history. */
  lemma FirstReplyAsksPending(turns: seq<Turn>, question: string, sampling: Sampling, chat: ChatFn)
    ensures var pending := turns + [Turn(Some(question), None)];
      var (outcome, kept) := ReplyOutcome([], pending, sampling, chat);
      var out := chat(Some(question), Rebuild(turns), sampling);
      outcome == Success(turns + [Turn(Some(question), Some(out.reply))]) && kept == out.history
  {
    var pending := turns + [Turn(Some(question), None)];
    AskPending(turns, question);
    var out := chat(Some(question), Rebuild(turns), sampling);
    assert Answer(pending, out.reply) == turns + [Turn(Some(question), Some(out.reply))];
  }
}
