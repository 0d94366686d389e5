/**
 * The two shapes a conversation takes: the chat widget's list of
 * `[user, reply]` turns, and the role-tagged message list the model keeps.
 * `chat_reply` (and its twin `llm_reply` over the global `MESSAGES`) turns the
 * first into the second the first time it is called, and picks the question
 * the model is asked.
 */
module History {
  import opened Wrappers

  datatype Role = User | Assistant

  /** `{"role": …, "content": …}`. */
  datatype Message = Message(role: Role, content: string)

  /** One `[user, reply]` entry of the chat widget; `None` is Python's `None`. */
  datatype Turn = Turn(user: Option<string>, reply: Option<string>)

  /** The chat widget's history list, which the handlers change in place. */
  class TurnList {
    var turns: seq<Turn>

    constructor (turns: seq<Turn>)
      ensures this.turns == turns
    {
      this.turns := turns;
    }
  }

  /** Python truthiness of a turn field: neither `None` nor `""`. */
  predicate Truthy(field: Option<string>) {
    field.Some? && field.value != ""
  }

  /** The message a field contributes, if it is truthy. */
  function FieldMessages(role: Role, field: Option<string>): seq<Message> {
    if Truthy(field) then [Message(role, field.value)] else []
  }

  /** One turn's messages: the user's before the assistant's. */
  function TurnMessages(t: Turn): seq<Message> {
    FieldMessages(User, t.user) + FieldMessages(Assistant, t.reply)
  }

  /** The messages appended for `turns`, turn by turn. */
  function Rebuild(turns: seq<Turn>): seq<Message>
    decreases |turns|
  {
    if turns == [] then [] else Rebuild(turns[..|turns| - 1]) + TurnMessages(turns[|turns| - 1])
  }

  /** What the first half of `chat_reply` ends in: a question to ask together
      with the history to ask it with; the history left behind when the
      question was never bound (Python then raises `UnboundLocalError`); or an
      `IndexError` because the widget's list is empty. */
  datatype Reconciled =
    | Asked(question: Option<string>, history: seq<Message>)
    | Unbound(history: seq<Message>)
    | NoLastTurn

  /** With no retained history, every turn before a final unanswered turn is
      converted and the final turn's user field is the question; with retained
      history, the widget's last user field is the question and the retained
      history is kept. */
  function Reconcile(history: seq<Message>, turns: seq<Turn>): Reconciled {
    if history != [] then
      if turns == [] then NoLastTurn else Asked(turns[|turns| - 1].user, history)
    else if turns != [] && !Truthy(turns[|turns| - 1].reply) then
      Asked(turns[|turns| - 1].user, Rebuild(turns[..|turns| - 1]))
    else
      Unbound(Rebuild(turns))
  }

  /** The first half of `chat_reply` and `llm_reply`: the loop that appends the
      messages of each turn, stopping at a final turn whose reply is falsy. */
  method ReconcileHistory(history: seq<Message>, turns: seq<Turn>) returns (r: Reconciled)
    ensures r == Reconcile(history, turns)
  {
    if history != [] {
      if |turns| == 0 {
        return NoLastTurn;
      }
      return Asked(turns[|turns| - 1].user, history);
    }
    var messages: seq<Message> := [];
    var idx := 0;
    while idx < |turns|
      invariant 0 <= idx <= |turns|
      invariant messages == Rebuild(turns[..idx])
      invariant idx == |turns| && idx > 0 ==> Truthy(turns[idx - 1].reply)
    {
      var turn := turns[idx];
      if idx == |turns| - 1 && !Truthy(turn.reply) {
        return Asked(turn.user, messages);
      }
      if Truthy(turn.user) {
        messages := messages + [Message(User, turn.user.value)];
      }
      if Truthy(turn.reply) {
        messages := messages + [Message(Assistant, turn.reply.value)];
      }
      assert turns[..idx + 1][..idx] == turns[..idx];
      idx := idx + 1;
    }
    assert turns[..idx] == turns;
    return Unbound(messages);
  }

  /** `chat_history[-1][1] = reply`: the last turn gets the reply and nothing
      else changes. */
  function Answer(turns: seq<Turn>, reply: string): (answered: seq<Turn>)
    requires turns != []
    ensures |answered| == |turns|
    ensures forall k :: 0 <= k < |turns| - 1 ==> answered[k] == turns[k]
    ensures answered[|turns| - 1].user == turns[|turns| - 1].user
    ensures answered[|turns| - 1].reply == Some(reply)
  {
    turns[|turns| - 1 := Turn(turns[|turns| - 1].user, Some(reply))]
  }

  /** Converting two runs of turns one after the other converts their concatenation. */
  lemma {:induction false} RebuildAppend(a: seq<Turn>, b: seq<Turn>)
    ensures Rebuild(a + b) == Rebuild(a) + Rebuild(b)
    decreases |b|
  {
    if b == [] {
      assert a + b == a;
    } else {
      var n := |b| - 1;
      assert (a + b)[..|a + b| - 1] == a + b[..n];
      RebuildAppend(a, b[..n]);
    }
  }

  lemma RebuildCons(t: Turn, rest: seq<Turn>)
    ensures Rebuild([t] + rest) == TurnMessages(t) + Rebuild(rest)
  {
    RebuildAppend([t], rest);
    assert [t][..0] == [];
  }

  /** Every converted message carries non-empty content. */
  lemma {:induction false} RebuildNonEmpty(turns: seq<Turn>)
    ensures forall k :: 0 <= k < |Rebuild(turns)| ==> Rebuild(turns)[k].content != ""
    decreases |turns|
  {
    if turns != [] {
      RebuildNonEmpty(turns[..|turns| - 1]);
    }
  }

  /** Reads a message list back as widget turns: a user message followed by an
      assistant message is one answered turn, any other message a turn of its own. */
  function TurnsOf(ms: seq<Message>): seq<Turn>
    decreases |ms|
  {
    if ms == [] then []
    else if ms[0].role == User && |ms| > 1 && ms[1].role == Assistant then
      [Turn(Some(ms[0].content), Some(ms[1].content))] + TurnsOf(ms[2..])
    else if ms[0].role == User then [Turn(Some(ms[0].content), None)] + TurnsOf(ms[1..])
    else [Turn(None, Some(ms[0].content))] + TurnsOf(ms[1..])
  }

  /** No message is lost: a list of messages with content is what its turns
      convert back to. */
  lemma {:induction false} RebuildTurnsOf(ms: seq<Message>)
    requires forall k :: 0 <= k < |ms| ==> ms[k].content != ""
    ensures Rebuild(TurnsOf(ms)) == ms
    decreases |ms|
  {
    if ms != [] {
      var n := FirstTurn(ms);
      var rest := ms[n..];
      assert forall k :: 0 <= k < |rest| ==> rest[k] == ms[k + n];
      RebuildTurnsOf(rest);
      RebuildCons(TurnsOf(ms)[0], TurnsOf(rest));
      assert ms == ms[..n] + rest;
    }
  }

  /** The first turn read back from `ms` holds its first `n` messages. */
  lemma FirstTurn(ms: seq<Message>) returns (n: nat)
    requires ms != [] && ms[0].content != "" && (|ms| > 1 ==> ms[1].content != "")
    ensures 1 <= n <= 2 && n <= |ms|
    ensures TurnsOf(ms) == [TurnsOf(ms)[0]] + TurnsOf(ms[n..])
    ensures TurnMessages(TurnsOf(ms)[0]) == ms[..n]
  {
    var m := ms[0];
    if m.role == User && |ms| > 1 && ms[1].role == Assistant {
      n := 2;
      assert TurnMessages(TurnsOf(ms)[0]) == [m, ms[1]];
    } else {
      n := 1;
      assert TurnMessages(TurnsOf(ms)[0]) == [m];
    }
  }

  /** A widget turn as the demos produce it: a user text, and a reply that is
      absent or non-empty. */
  predicate WellFormed(t: Turn) {
    Truthy(t.user) && (t.reply.None? || Truthy(t.reply))
  }

  /** No turn is lost either: well-formed turns convert to messages that read
      back as the same turns. */
  lemma {:induction false} TurnsOfRebuild(turns: seq<Turn>)
    requires forall k :: 0 <= k < |turns| ==> WellFormed(turns[k])
    ensures TurnsOf(Rebuild(turns)) == turns
    decreases |turns|
  {
    if turns != [] {
      var t := turns[0];
      var rest := turns[1..];
      RebuildCons(t, rest);
      assert turns == [t] + rest;
      TurnsOfRebuild(rest);
      var ms := Rebuild(turns);
      if t.reply.None? {
        // the next message, if any, is the next turn's user message
        if rest != [] {
          RebuildCons(rest[0], rest[1..]);
          assert rest == [rest[0]] + rest[1..];
        }
        assert ms[1..] == Rebuild(rest);
      } else {
        assert ms[2..] == Rebuild(rest);
      }
    }
  }

  /** Two small examples: a lone unanswered turn, and an answered
      turn followed by an unanswered one. */
  lemma ReconcileExamples()
    ensures Reconcile([], [Turn(Some("hi"), None)]) == Asked(Some("hi"), [])
    ensures Reconcile([], [Turn(Some("hi"), Some("hello")), Turn(Some("bye"), None)])
      == Asked(Some("bye"), [Message(User, "hi"), Message(Assistant, "hello")])
  {
    var two := [Turn(Some("hi"), Some("hello")), Turn(Some("bye"), None)];
    assert two[..1] == [two[0]];
    assert [two[0]][..0] == [];
  }

  /** When the question goes unbound: with no retained history, exactly when
      the widget's list is empty or its last turn already has a reply. Retained
      history fails only on an empty list and is otherwise kept unchanged. */
  lemma ReconcileCases(history: seq<Message>, turns: seq<Turn>)
    ensures Reconcile(history, turns).Unbound? <==>
      history == [] && (turns == [] || Truthy(turns[|turns| - 1].reply))
    ensures Reconcile(history, turns).NoLastTurn? <==> history != [] && turns == []
    ensures Reconcile(history, turns).Asked? ==> turns != [] && Reconcile(history, turns).question == turns[|turns| - 1].user
    ensures history != [] && turns != [] ==> Reconcile(history, turns) == Asked(turns[|turns| - 1].user, history)
  {
  }

  /** Earlier turns are converted the same whatever is appended after them:
      the unanswered question of a later call is asked with exactly the
      messages of the turns before it. */
  lemma AskPending(turns: seq<Turn>, question: string)
    ensures Reconcile([], turns + [Turn(Some(question), None)]) == Asked(Some(question), Rebuild(turns))
  {
    var all := turns + [Turn(Some(question), None)];
    assert all[..|all| - 1] == turns;
  }
}
