# ChatGLM3 / Qwen demo front-ends: escaper and history model

This project models the logic inside the chat demos, which are otherwise glue
code. The model covers three parts.

- **Display escapers.** `parse_text` is the ChatGLM3 version. It appears twice,
  byte for byte: `demo/gradio_web_chat_demo.py` and
  `chatglm3/gradio_fastapi_demo/web/ui_functions.py`. `_parse_text` is the Qwen
  version. Both turn chat text into an HTML fragment. Markdown fence lines
  (lines containing three backticks) become `<pre><code class="language-…">`
  and closing tags in turn. The other lines are escaped by an ordered chain of
  single-character replacements and joined with line-break markers.
- **History reconciliation.** This is `ChatGLM3.chat_reply` and its twin
  `llm_reply`, which works on the module-level `MESSAGES`. It converts the chat
  widget's `[user, reply]` turns into role-tagged messages the first time it is
  called. It then picks the question to ask, keeps the history the model
  returns and writes the reply into the widget's last turn.
- **Widget list handlers.**
  - `query_user_input` adds one turn.
  - `llm_reply` and `llm_stream_reply` overwrite the last turn's reply.
  - The Qwen `predict`, `regenerate` and `reset_state` append to, pop from and
    clear two parallel lists.

Each source file works by changing state step by step, and so does its model.

- The escaper loops are `method`s. They rewrite the line list in place, with the
  toggle or counter as a loop variable, and are proved equal to a per-line
  specification (`Render`, `QwenRender`).
- The properties of the escapers are lemmas about those specification functions.
- The widget's list, the wrapper's `history` and the global `MESSAGES` are
  fields of classes (`TurnList`, `EntryList`, `ChatGLM3`, `Globals`). Methods
  with `modifies` clauses reassign those fields.
- Each generator is a method that returns the list as every `yield` shows it
  (`snapshots`).

Files: `wrappers.dfy` (Option, Result), `strings.dfy` (the Python `str`
operations used), `escaper.dfy`, `qwen_escaper.dfy`, `history.dfy`,
`model_wrapper.dfy`, `web_chat_demo.dfy`, `chat_ui.dfy`, `qwen_demo.dfy`.

Three behaviours of the code are easy to misread, and the model states each one
as the code has it.

- **Which lines are escaped.** In `parse_text`, every line that is not a fence
  line is escaped, whatever the toggle says. The toggle only chooses between
  the opening and the closing tag, so code inside a block is escaped too.
- **`clear_history`.** It returns `None`, although its HTTP route is typed
  `bool`.
- **Unbound question.** `chat_reply` and `llm_reply` do not check that the
  widget's list is non-empty with an unanswered last turn. When no question
  is bound, Python raises `UnboundLocalError`. The model treats this as an
  error outcome (`UnboundQuestion`), not as a precondition. The messages
  appended before the raise stay in the kept history.

## Model

| member | source | states |
|---|---|---|
| Escaper.ParseText | demo/gradio_web_chat_demo.py:38-85 | `parse_text` (identical at chatglm3/gradio_fastapi_demo/web/ui_functions.py:19-66) produces `Render(text)`: the newline split with one empty framing line dropped at each end, each line rewritten, all concatenated in order |
| Escaper.RewriteLines | demo/gradio_web_chat_demo.py:52-83 | the in-place loop leaves line i equal to the specified rendering of input line i, for every i |
| Escaper.RewriteLine | demo/gradio_web_chat_demo.py:54-83 | one iteration: the toggle after line i is the parity of the fence lines up to i, and line i becomes its opening tag, closing tag or escaped text |
| Escaper.DropFramingShape | demo/gradio_web_chat_demo.py:45-50 | the result is the run `lines[a..e]`: `a` skips the first line exactly when it is empty, and `e` stops one line short of the end exactly when a line is left and the last line is empty; a list with non-empty ends is unchanged |
| Escaper.RenderEmpty | demo/gradio_web_chat_demo.py:45-50 | the texts `""` and `"\n"` render as `""` |
| Escaper.FencesAlternate | demo/gradio_web_chat_demo.py:53-60 | the first fence line opens a block, of two consecutive fence lines exactly one opens, and a fence line becomes the opening tag with `items[-1].strip()` or `items[0].strip()` followed by the closing tag accordingly |
| Escaper.FirstFenceOpens | demo/gradio_web_chat_demo.py:52-58 | the first fence line, also on line 0, opens a block and becomes the opening tag with `items[-1].strip()` |
| Escaper.FenceRendering | demo/gradio_web_chat_demo.py:54-60 | any fence line becomes the opening tag when it opens a block and `items[0].strip()` followed by the closing tag otherwise |
| Escaper.LastFenceCloses | demo/gradio_web_chat_demo.py:52-60 | after the last fence line the block is open exactly when the number of fence lines is odd, so an even count leaves no dangling open tag |
| Escaper.FenceNoBreak | demo/gradio_web_chat_demo.py:56-60 | a fence line's output never ends in `<br/>` |
| Escaper.TextLineBreak | demo/gradio_web_chat_demo.py:83 | a text line's output ends in `<br/>` if and only if it is not the last line |
| Escaper.HtmlRulesNoReescape | demo/gradio_web_chat_demo.py:65-82 | no rule of the chain targets a character of an entity written by an earlier rule (`&` comes first) |
| Escaper.EscapeSinglePass | demo/gradio_web_chat_demo.py:65-82 | the chain of sixteen `replace` calls equals one left-to-right pass that writes each character's entity, so no entity text is escaped twice |
| Escaper.EscapeSafe | demo/gradio_web_chat_demo.py:63-82 | none of `< > space " * _ - . ! ( ) $ ' /` occurs in an escaped line |
| Escaper.EscapeNotIdempotent | demo/gradio_web_chat_demo.py:65-82 | escaping text that contains `&` a second time changes it again |
| Escaper.EscapePlain | demo/gradio_web_chat_demo.py:65-82 | text with none of the sixteen characters is left unchanged |
| Strings.SplitJoin | demo/gradio_web_chat_demo.py:45 | joining the pieces of `split` on a one-character separator with that separator gives the text back |
| Strings.JoinSplit | demo/gradio_web_chat_demo.py:45 | splitting a join of pieces without the separator gives the pieces back |
| Strings.RStripSpec | demo/gradio_web_chat_demo.py:63 | `rstrip()` keeps the longest prefix that does not end in whitespace and removes only whitespace |
| Strings.StripSpec | demo/gradio_web_chat_demo.py:58-60 | `strip()` keeps a middle slice `s[i..j]` of the text, removes only whitespace before `i` and from `j` on, and keeps a slice that neither starts nor ends with whitespace |
| Strings.ApplyRulesCharwise | demo/gradio_web_chat_demo.py:65-82 | any replacement chain in which no later rule targets a character of an earlier entity equals the single character-wise pass |
| QwenEscaper.QwenParseText | qwen/gradio_web_stream_chat_demo.py:64-93 | `_parse_text` produces `QwenRender(text)`: the newline split with every empty line removed, each line rewritten, concatenated in order |
| QwenEscaper.QwenRewriteLines | qwen/gradio_web_stream_chat_demo.py:67-91 | the in-place loop leaves line i equal to the specified rendering of input line i, for every i |
| QwenEscaper.QwenRewriteLine | qwen/gradio_web_stream_chat_demo.py:68-91 | one iteration: `count` after line i is the number of fence lines up to i; a line at index 0 that is not a fence is written back unchanged |
| QwenEscaper.QwenFenceStep | qwen/gradio_web_stream_chat_demo.py:69-75 | a fence line increments the count and becomes `<pre><code class="language-{items[-1]}">` (not stripped) when the count is odd, and exactly `<br></code></pre>` when it is even |
| QwenEscaper.QwenTextStep | qwen/gradio_web_stream_chat_demo.py:76-91 | any other line keeps the count; after index 0 it gets the `<br>` prefix and is escaped only when the count is odd; at index 0 it is kept verbatim |
| QwenEscaper.NonEmptySpec | qwen/gradio_web_stream_chat_demo.py:66 | the filter leaves no empty line, keeps the concatenated text, and leaves a list without empty lines as it is |
| QwenEscaper.NonEmptyInOrder | qwen/gradio_web_stream_chat_demo.py:66 | filtering a concatenation of two lists gives the two filtered lists, in order |
| QwenEscaper.NonEmptyLine | qwen/gradio_web_stream_chat_demo.py:66 | a single line is kept exactly when it is not empty |
| QwenEscaper.OnlyNewlines | qwen/gradio_web_stream_chat_demo.py:65-66 | text made only of newlines keeps no line and renders as `""` |
| QwenEscaper.QwenRulesNoReescape | qwen/gradio_web_stream_chat_demo.py:79-90 | no rule of the Qwen chain targets a character of an entity written by an earlier rule |
| QwenEscaper.QwenEscapeSinglePass | qwen/gradio_web_stream_chat_demo.py:79-90 | the twelve `replace` calls equal one character-wise pass |
| QwenEscaper.QwenEscapeSafe | qwen/gradio_web_stream_chat_demo.py:79-90 | none of `< > space * _ - . ! ( ) $` occurs in an escaped code line |
| QwenEscaper.QwenKeepsAmpersand | qwen/gradio_web_stream_chat_demo.py:79-90 | `&` is never escaped: an `&` of the input is in the output |
| QwenEscaper.QwenAgreesWithHtml | qwen/gradio_web_stream_chat_demo.py:79-90 | on text without `& " ' /` the Qwen chain escapes exactly as the ChatGLM3 chain does |
| QwenEscaper.QwenEscapeCollides | qwen/gradio_web_stream_chat_demo.py:79-90 | because `&` is left alone, a code line and the same line with `<` written as `&lt;` escape to the same HTML, although they differ |
| History.ReconcileHistory | demo/gradio_fastapi_demo/api/model.py:50-60 | the loop's outcome is `Reconcile`: with empty history, the messages of every turn before a final unanswered turn, user before assistant, falsy fields skipped, and that turn's user field as the question; with kept history, the last turn's user field and the history unchanged; an unbound question or an empty list otherwise |
| History.Answer | demo/gradio_fastapi_demo/api/model.py:70 | `chat_history[-1][1] = reply` changes only the last turn's reply, to the reply |
| History.RebuildAppend | demo/gradio_fastapi_demo/api/model.py:51-58 | converting two runs of turns one after the other converts their concatenation |
| History.RebuildNonEmpty | demo/gradio_fastapi_demo/api/model.py:55-58 | every converted message has non-empty content, since falsy fields are skipped |
| History.RebuildTurnsOf | demo/gradio_fastapi_demo/api/model.py:51-58 | no message is lost: messages with content, read back as turns, convert to themselves |
| History.TurnsOfRebuild | demo/gradio_fastapi_demo/api/model.py:51-58 | no turn is lost: turns with a user text and an absent or non-empty reply convert to messages that read back as the same turns |
| History.ReconcileExamples | demo/gradio_fastapi_demo/api/model.py:50-58 | one unanswered turn is asked with no history; an answered turn followed by an unanswered one is asked with that turn's two messages |
| History.ReconcileCases | demo/gradio_fastapi_demo/api/model.py:50-64 | the question is unbound exactly when the history is empty and the list is empty or its last turn is answered; only a kept history with an empty list fails on indexing; a kept history is asked unchanged with the last user field |
| History.AskPending | demo/gradio_fastapi_demo/api/model.py:51-54 | a turn appended unanswered after any turns is asked with exactly the messages of those turns |
| ModelWrapper.ReplyOutcome | demo/gradio_fastapi_demo/api/model.py:41-71 | `chat_reply` succeeds exactly when reconciliation binds a question, then returns a list of the same length; on the indexing error the history is kept as it was |
| ModelWrapper.ChatGLM3.constructor | demo/gradio_fastapi_demo/api/model.py:18 | a new wrapper has an empty history |
| ModelWrapper.ChatGLM3.ChatReply | demo/gradio_fastapi_demo/api/model.py:41-71 | the new history and the widget's list are those of `ReplyOutcome`; the same list object is returned; on an error the list is untouched |
| ModelWrapper.ChatGLM3.ClearHistory | demo/gradio_fastapi_demo/api/model.py:73-77 | the history becomes empty; nothing is returned |
| ModelWrapper.ReplyKeepsModelHistory | demo/gradio_fastapi_demo/api/model.py:62-71 | after a successful reply the kept history is exactly the model's returned history, earlier turns are unchanged and the last reply is the model's reply |
| ModelWrapper.FirstReplyAsksPending | demo/gradio_fastapi_demo/api/model.py:50-71 | a fresh wrapper asks a pending last turn's question with the earlier turns' messages and answers that turn |
| WebChatDemo.Globals.constructor | demo/gradio_web_chat_demo.py:13 | `MESSAGES` starts empty |
| WebChatDemo.Globals.LlmReply | demo/gradio_web_chat_demo.py:88-120 | the global twin of `chat_reply`: new `MESSAGES` and widget list as `ReplyOutcome` gives them, the same list returned |
| WebChatDemo.Globals.ClearMessages | demo/gradio_web_chat_demo.py:136-142 | `MESSAGES` becomes empty |
| ChatUi.WithQuery | chatglm3/gradio_fastapi_demo/web/ui_functions.py:77-78 | empty input leaves the turns as they are; otherwise exactly one turn `[parse_text(input), None]` is appended and the earlier turns are kept |
| ChatUi.QueryUserInput | chatglm3/gradio_fastapi_demo/web/ui_functions.py:69-79 | `query_user_input` (identical at demo/gradio_web_chat_demo.py:123-133) returns `""` and the same list, extended in place as `WithQuery` says |
| ChatUi.QueryIsAsked | demo/gradio_web_chat_demo.py:100-110 | a query followed by a reply asks the rendered input, with the kept history or else with the messages of all earlier turns |
| ChatUi.LlmReply | chatglm3/gradio_fastapi_demo/web/ui_functions.py:82-92 | only the last turn's reply changes, to the request's result, and the same list is returned; an empty list raises |
| ChatUi.StreamSnapshots | chatglm3/gradio_fastapi_demo/web/ui_functions.py:104-106 | one yield per chunk, each showing the list with the last reply equal to that chunk alone |
| ChatUi.LlmStreamReply | chatglm3/gradio_fastapi_demo/web/ui_functions.py:95-106 | no chunks: nothing changes and nothing is yielded; otherwise the yields are `StreamSnapshots` and the last reply ends as the final chunk; an empty list raises at the first chunk |
| ChatUi.AnswerOverwrites | chatglm3/gradio_fastapi_demo/web/ui_functions.py:104-105 | overwriting, not accumulating: answering twice equals answering with the second reply |
| QwenDemo.Predicted | qwen/gradio_web_stream_chat_demo.py:96-106 | `predict` adds exactly one entry, the rendered query with the full response, and keeps every earlier entry |
| QwenDemo.PredictSnapshots | qwen/gradio_web_stream_chat_demo.py:97-103 | one yield per streamed response; each shows the earlier entries unchanged and a last entry of the rendered query and that rendered response |
| QwenDemo.Predict | qwen/gradio_web_stream_chat_demo.py:96-106 | the widget's list ends as `Predicted`, the yields are `PredictSnapshots`, and `task_history` gains exactly `(query, full_response)`: the rendered last response, or `""` for an empty stream; both lists together are `PredictState` of the old lists |
| QwenDemo.PredictStep | qwen/gradio_web_stream_chat_demo.py:100-104 | one more streamed response adds one snapshot and becomes the full response |
| QwenDemo.Regenerate | qwen/gradio_web_stream_chat_demo.py:109-115 | with empty `task_history` it yields the list once and changes nothing; otherwise it pops both lists' last entries and runs `predict` on the popped query; an empty widget list raises after the first pop; it succeeds exactly when `RegenerateState` does, and then both lists are that state |
| QwenDemo.ResetState | qwen/gradio_web_stream_chat_demo.py:122-128 | both lists become empty and the widget's list is returned |
| QwenDemo.RegenerateAfterPredict | qwen/gradio_web_stream_chat_demo.py:96-115 | `regenerate` right after `predict` ends as if `predict` had been given the new stream in the first place, for the states that `Predict` and `Regenerate` leave |
| QwenDemo.ListsInStep | qwen/gradio_web_stream_chat_demo.py:96-115 | on lists of equal length, `predict` keeps them equal and one longer, and `regenerate` succeeds and keeps both lengths |

## Left out

- Model and tokenizer loading (`snapshot_download`, `AutoModel`, quantisation, `.cuda()`), `gc.collect` and `torch.cuda.empty_cache`: runtime and device effects outside this logic.
- `MODEL.chat` and `MODEL.chat_stream`: foreign inference calls. `chat` is a function parameter with unconstrained outputs. Each stream is a parameter holding an arbitrary finite sequence, independent of the history passed to the model.
- ModelWrapper.ChatGLM3.ChatReply: `chat` is modelled as a function of its arguments, so two calls with equal arguments return equal results. A model that samples at random is not captured.
- `top_p`, `temperature` and the Qwen generation config: passed through as opaque values (`real`), never computed with.
- The Gradio wiring, `gr.Info`, the `mdtex2html` post-processing of the Qwen widget, the FastAPI routers, `StreamingResponse` and the `requests` calls with charset detection: UI and HTTP plumbing.
- ChatUi.LlmReply: the request's result is an opaque string. Over HTTP, `/chat` answers with the whole list that `chat_reply` returns, and that list is what lands in the reply slot.
- The route in demo/gradio_fastapi_demo/api/routers.py:39 calls a `stream_chat_reply` method that model.py does not define; the `ChatGLM3Factory` singleton is not part of this model.
- The UI's `clear_messages` (chatglm3/gradio_fastapi_demo/web/ui_functions.py:11-17) shows its notice only if the request returns a true value; the server's `clear_history` returns nothing, so the notice never shows. HTTP is not modelled.
- Concurrency: two requests sharing one wrapper's history, or the global `MESSAGES`, are not modelled.
- Whitespace for `rstrip()`/`strip()` is the fixed set of characters for which Python 3's `str.isspace()` holds (`Strings.IsSpace`). A different Unicode database version could differ.
- The CLI loops and the timing test: console I/O.
- ChatUi.LlmStreamReply: only runs that consume the generator to its end are modelled. A consumer that stops early sees a prefix of `snapshots`, and then the list holds the last chunk it saw.
- QwenDemo.Predict: requires the two lists to be distinct objects, as the demo's two `State` lists are; aliasing them is not modelled. The same holds for QwenDemo.Regenerate.
- QwenDemo.Predict: `task_history` is updated only after the stream ends. A consumer that stops early leaves it unchanged; only full runs are modelled.
- Each yield is modelled as a copy of the list at that moment. In Python every yield hands out the same list object, which later iterations keep changing.
- Turn values: a widget turn is a value, so Python's sharing of inner `[user, reply]` lists between the widget list and other references is not modelled.
- Python raises `UnboundLocalError` and `IndexError` as exceptions; here they are `Failure` or `Some(error)` results carrying the state at the point of the raise.
