/**
 * The list handlers of the Qwen streaming demo. The widget's list `chatbot`
 * holds rendered `(query, response)` pairs and `task_history` the raw ones the
 * model is asked with; `predict` streams a reply into the first, `regenerate`
 * takes the last exchange back and asks again, `reset_state` clears both.
 */
module QwenDemo {
  import opened Wrappers
  import opened QwenEscaper

  /** One `(query, response)` tuple. */
  datatype Entry = Entry(query: string, response: string)

  /** A list of entries that the handlers change in place. */
  class EntryList {
    var entries: seq<Entry>

    constructor (entries: seq<Entry>)
      ensures this.entries == entries
    {
      this.entries := entries;
    }
  }

  /** `_chatbot.pop(-1)` of an empty list raises `IndexError`. */
  datatype QwenError = EmptyChatbot

  /** What `predict` records as the full response: the rendered last item of
      the stream, or `""` when the stream is empty. */
  function FullResponse(responses: seq<string>): string {
    if responses == [] then "" else QwenRender(responses[|responses| - 1])
  }

  /** `chatbot` after `predict`: one more entry, the rendered query with the
      full response, and every earlier entry as it was. */
  function Predicted(chatbot: seq<Entry>, query: string, responses: seq<string>): (after: seq<Entry>)
    ensures |after| == |chatbot| + 1 && after[..|chatbot|] == chatbot
    ensures after[|chatbot|] == Entry(QwenRender(query), FullResponse(responses))
  {
    chatbot + [Entry(QwenRender(query), FullResponse(responses))]
  }

  /** The widget's list as each yield of `predict` shows it: the earlier
      entries and, last, the rendered query with the rendered k-th response. */
  function PredictSnapshots(chatbot: seq<Entry>, query: string, responses: seq<string>)
    : (shown: seq<seq<Entry>>)
    ensures |shown| == |responses|
    ensures forall k :: 0 <= k < |responses| ==>
      |shown[k]| == |chatbot| + 1 && shown[k][..|chatbot|] == chatbot
      && shown[k][|chatbot|] == Entry(QwenRender(query), QwenRender(responses[k]))
  {
    seq(|responses|, k requires 0 <= k < |responses| =>
      chatbot + [Entry(QwenRender(query), QwenRender(responses[k]))])
  }

  /** `predict`: appends the rendered query with an empty response, replaces
      that entry with the rendered query and response at each item of the
      stream and yields the list, and finally records the raw query with the
      full response in `task_history`. */
  method Predict(query: string, responses: seq<string>, chatbot: EntryList, task: EntryList)
    returns (snapshots: seq<seq<Entry>>)
    requires chatbot != task
    modifies chatbot, task
    ensures chatbot.entries == Predicted(old(chatbot.entries), query, responses)
    ensures task.entries == old(task.entries) + [Entry(query, FullResponse(responses))]
    ensures snapshots == PredictSnapshots(old(chatbot.entries), query, responses)
    ensures (chatbot.entries, task.entries) == PredictState(old(chatbot.entries), old(task.entries), query, responses)
  {
    ghost var before := chatbot.entries;
    var parsedQuery := QwenParseText(query);
    chatbot.entries := chatbot.entries + [Entry(parsedQuery, "")];
    var fullResponse := "";
    snapshots := [];
    for i := 0 to |responses|
      invariant parsedQuery == QwenRender(query)
      invariant chatbot.entries == before + [Entry(parsedQuery, fullResponse)]
      invariant fullResponse == FullResponse(responses[..i])
      invariant task.entries == old(task.entries)
      invariant snapshots == PredictSnapshots(before, query, responses[..i])
    {
      parsedQuery := QwenParseText(query);
      var parsedResponse := QwenParseText(responses[i]);
      chatbot.entries := chatbot.entries[|chatbot.entries| - 1 := Entry(parsedQuery, parsedResponse)];
      snapshots := snapshots + [chatbot.entries];
      fullResponse := parsedResponse;
      PredictStep(before, query, responses, i);
    }
    assert responses[..|responses|] == responses;
    task.entries := task.entries + [Entry(query, fullResponse)];
  }

  /** One more item of the stream adds one snapshot and becomes the full response. */
  lemma PredictStep(chatbot: seq<Entry>, query: string, responses: seq<string>, i: nat)
    requires i < |responses|
    ensures PredictSnapshots(chatbot, query, responses[..i + 1])
      == PredictSnapshots(chatbot, query, responses[..i])
         + [chatbot + [Entry(QwenRender(query), QwenRender(responses[i]))]]
    ensures FullResponse(responses[..i + 1]) == QwenRender(responses[i])
  {
    var longer := PredictSnapshots(chatbot, query, responses[..i + 1]);
    var shorter := PredictSnapshots(chatbot, query, responses[..i]);
    var step := chatbot + [Entry(QwenRender(query), QwenRender(responses[i]))];
    forall k | 0 <= k < i + 1 ensures longer[k] == (shorter + [step])[k] {
      if k < i {
        assert responses[..i + 1][k] == responses[..i][k];
      }
    }
  }

  /** `regenerate`: with nothing in `task_history`, yields the widget's list
      as it is. Otherwise pops the last raw exchange, pops the widget's last
      entry (raising on an empty widget list, after the first pop) and runs
      `predict` again on the popped query. */
  method Regenerate(responses: seq<string>, chatbot: EntryList, task: EntryList)
    returns (snapshots: seq<seq<Entry>>, err: Option<QwenError>)
    requires chatbot != task
    modifies chatbot, task
    ensures old(task.entries) == [] ==>
      snapshots == [old(chatbot.entries)] && err == None
      && chatbot.entries == old(chatbot.entries) && task.entries == []
    ensures old(task.entries) != [] && old(chatbot.entries) == [] ==>
      snapshots == [] && err == Some(EmptyChatbot)
      && chatbot.entries == [] && task.entries == old(task.entries)[..|old(task.entries)| - 1]
    ensures old(task.entries) != [] && old(chatbot.entries) != [] ==>
      var kept := old(chatbot.entries)[..|old(chatbot.entries)| - 1];
      var item := old(task.entries)[|old(task.entries)| - 1];
      err == None
      && snapshots == PredictSnapshots(kept, item.query, responses)
      && chatbot.entries == Predicted(kept, item.query, responses)
      && task.entries == old(task.entries)[..|old(task.entries)| - 1] + [Entry(item.query, FullResponse(responses))]
    ensures var outcome := RegenerateState(old(chatbot.entries), old(task.entries), responses);
      (outcome.Success? <==> err == None)
      && (outcome.Success? ==> (chatbot.entries, task.entries) == outcome.value)
  {
    if |task.entries| == 0 {
      return [chatbot.entries], None;
    }
    var item := task.entries[|task.entries| - 1];
    task.entries := task.entries[..|task.entries| - 1];
    if |chatbot.entries| == 0 {
      return [], Some(EmptyChatbot);
    }
    chatbot.entries := chatbot.entries[..|chatbot.entries| - 1];
    snapshots := Predict(item.query, responses, chatbot, task);
    err := None;
  }

  /** `reset_state`: empties both lists in place and returns the widget's. */
  method ResetState(chatbot: EntryList, task: EntryList) returns (same: EntryList)
    modifies chatbot, task
    ensures chatbot.entries == [] && task.entries == [] && same == chatbot
  {
    task.entries := [];
    chatbot.entries := [];
    return chatbot;
  }

  /** Both lists after `predict`, as `Predict` leaves them. */
  function PredictState(chatbot: seq<Entry>, task: seq<Entry>, query: string, responses: seq<string>)
    : (seq<Entry>, seq<Entry>)
  {
    (Predicted(chatbot, query, responses), task + [Entry(query, FullResponse(responses))])
  }

  /** Both lists after `regenerate`, or the error it raises, as `Regenerate`
      leaves them. */
  function RegenerateState(chatbot: seq<Entry>, task: seq<Entry>, responses: seq<string>)
    : Result<(seq<Entry>, seq<Entry>), QwenError>
  {
    if task == [] then Success((chatbot, task))
    else if chatbot == [] then Failure(EmptyChatbot)
    else
      var item := task[|task| - 1];
      Success(PredictState(chatbot[..|chatbot| - 1], task[..|task| - 1], item.query, responses))
  }

  /** `regenerate` after `predict` takes that exchange back and asks the same
      query again: the result is as if `predict` had been given the new
      stream in the first place. */
  lemma RegenerateAfterPredict(chatbot: seq<Entry>, task: seq<Entry>, query: string,
                               first: seq<string>, second: seq<string>)
    ensures var (c, t) := PredictState(chatbot, task, query, first);
      RegenerateState(c, t, second) == Success(PredictState(chatbot, task, query, second))
  {
    var (c, t) := PredictState(chatbot, task, query, first);
    assert c[..|c| - 1] == chatbot;
    assert t[..|t| - 1] == task;
  }

  /** The two lists are kept in step: `predict` and a successful `regenerate`
      keep their lengths equal, and `regenerate` leaves both lengths as they
      were. */
  lemma ListsInStep(chatbot: seq<Entry>, task: seq<Entry>, query: string, responses: seq<string>)
    requires |chatbot| == |task|
    ensures var (c, t) := PredictState(chatbot, task, query, responses);
      |c| == |t| == |chatbot| + 1
    ensures RegenerateState(chatbot, task, responses).Success?
    ensures var (c, t) := RegenerateState(chatbot, task, responses).value;
      |c| == |chatbot| && |t| == |task|
  {
  }
}
