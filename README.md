# Data analyst agent: a Dafny model

This project models the core of `DataAnalystAgent` in `agent.py`: an agent that
answers a question about uploaded data files by asking a language model for a
Python script, running the script, and sending the traceback back to the model
when the script fails, up to `max_retries` times.

The model has four parts:

- `Values` (`values.dfy`): the Python objects a script leaves in `result`, and
  `_convert_to_native_types`. This is a recursive map that turns numpy integer,
  floating and bool scalars into native ones and leaves everything else alone.
- `Text` (`text.dfy`): the string operations the agent relies on. These are
  `in`, `str.split`, `str.endswith`, the `re.sub` that sanitises file names,
  and `str(n)` for a count. `agent.py` never calls `str.join`. `Join` is there
  so that `SplitJoin` can state that a split loses nothing, and so that the
  repr of the list of file variables can be stated.
- `Namespaces`, `FileContext` and `Scope` (`namespace.dfy`, `files.dfy`,
  `scope.dfy`): the file context and the execution scope.
  - Both are Python dicts, so the model keeps their insertion order; the user
    prompt prints the file context's keys.
  - Each upload is a `class` with a read position. `_prepare_file_context` is a
    method with a loop that reads each file, binds it, and rewinds it.
  - `_create_execution_scope` lays the file context over fixed library
    bindings and `result = None`.
- `Agent` (`agent.dfy`): `run` itself.
  - Code-fence extraction. It takes the script after the first
    `"```python\n"` up to the next `"\n```"`, or up to a second
    `"```python\n"`, because `agent.py:82` splits on the opening fence first.
  - The user prompt and the repair prompt. The repair prompt holds the faulty
    code and the traceback; the question stays earlier in the chat history.
  - One attempt as a function of the chat so far.
  - The session of attempts as a specification function (`Session`).
  - The class `DataAnalystAgent`. It holds the `lastDebugPrompt` field, and its
    `Run` method has the retry loop, proved to produce the session's outcome.

The language model, `exec` and `pd.read_csv` are oracles passed as function
parameters:

- `chat` answers the list of prompts sent so far in the chat session with a
  reply text or an API error.
- `exec` runs a script in a scope, and either raises with a traceback or leaves
  the scope's final bindings.
- `parseCsv` parses bytes into a table, or raises.

## Model

| member | source | states |
|---|---|---|
| Values.ToNative | agent.py:40-51 | the result is native (no numpy scalar in it, in list elements or in dict values at any depth); a list stays a list of the same length, a dict stays a dict with the same keys in the same order, and every value other than a list, a dict or a numpy scalar is returned unchanged |
| Values.ToNativePreservesMeaning | agent.py:40-51 | the conversion never changes what a value stands for: a numpy scalar becomes the native scalar of the same kind and number, at every depth of lists and dict values |
| Values.NativeDeterminedByMeaning | agent.py:40-51 | two native values that stand for the same thing are equal |
| Values.ToNativeCharacterized | agent.py:40-51 | `r` is the conversion of `v` if and only if `r` is native and stands for the same thing as `v` |
| Values.ToNativeFixesNative | agent.py:40-51 | a value that is already native is returned unchanged |
| Values.ToNativeIdempotent | agent.py:40-51 | converting twice is converting once |
| Values.ListConvertedElementwise | agent.py:41-50 | element i of a converted list is element i converted; a numpy float, int or bool element becomes the native float, int or bool of the same number |
| Values.TupleUnchanged | agent.py:51 | a tuple is returned unchanged, numpy scalars inside it included |
| Text.Find | agent.py:82 | the first occurrence of a pattern: none exactly when the pattern does not occur, and no occurrence before the one found |
| Text.Split | agent.py:82 | `str.split` gives at least one piece, and two or more exactly when the separator occurs |
| Text.SplitJoin | agent.py:82 | joining the pieces of a split with the separator gives the string back |
| Text.SplitPiecesFree | agent.py:82 | no piece of a split contains the separator |
| Text.ContainsIffFactor | agent.py:81 | `pat in s` holds exactly when `s` is some text, then `pat`, then some text |
| Text.EndsWithIffAppended | agent.py:132 | `s.endswith(suffix)` holds exactly when `s` is some text followed by `suffix` |
| Text.Before | agent.py:82 | the text before the first occurrence of a separator is a prefix that does not contain it, ending at an occurrence or at the end, with no occurrence starting before the cut |
| Text.NextAt | agent.py:82 | a left-to-right scan finds where a pattern first occurs at or after a position, or the end of the text when it does not occur there |
| Text.SplitHead | agent.py:82 | piece 0 of a split is the text before the first separator |
| Text.SplitSecond | agent.py:82 | when the separator occurs, piece 1 of a split is the text after its first occurrence, up to the next one |
| Text.Sanitize | agent.py:131 | the variable name has the length of the file name, and character i is the file name's character i when it is in [A-Za-z0-9_] and `_` otherwise |
| Text.SanitizedIsIdentifier | agent.py:131 | a sanitised name holds only [A-Za-z0-9_] |
| Text.SanitizeFixedPoints | agent.py:131 | sanitising leaves a name unchanged exactly when it already holds only [A-Za-z0-9_] |
| Text.SanitizeIdempotent | agent.py:131 | sanitising twice is sanitising once |
| Text.SanitizeCollision | agent.py:131 | two file names that differ only where both have characters outside [A-Za-z0-9_] give the same variable name |
| Text.Decimal | agent.py:103 | `str(n)` of a non-negative count is a non-empty string of decimal digits, with no leading zero unless the count is 0 |
| Text.DecimalRoundTrip | agent.py:103 | reading the decimal rendering back gives the number |
| Namespaces.Set | agent.py:134-137 | `d[k] = v` binds k to v and leaves every other binding; a new key goes last in the order, and an existing key keeps its place |
| Namespaces.Get | agent.py:89 | `d.get(k)` is the binding of k, or None when k is unbound |
| Namespaces.UpdateWith | agent.py:152 | assigning the given keys from a source one by one keeps the dict well formed: every bound key appears exactly once in the order |
| Namespaces.UpdateWithBindings | agent.py:152 | after assigning the given keys from a source, a key is bound exactly when it was bound before or is one of the keys; each assigned key holds its source value and every other key keeps its binding |
| Namespaces.UpdateWithOrder | agent.py:152 | the keys already present keep their places at the front of the order |
| Namespaces.Update | agent.py:152 | `d.update(e)` binds the union of both dicts with `e` winning on shared keys, and keeps `d`'s keys first in the order |
| FileContext.Remaining | agent.py:133 | `read()` returns the bytes after the read position, or none once the position is at or past the end |
| FileContext.AfterRead | agent.py:133 | after `read()` the position is at the end of the data, or where it was if that was already past the end |
| FileContext.Upload.Read | agent.py:133 | reading a file that raises changes nothing; otherwise it returns the remaining bytes and moves the position to the end |
| FileContext.Upload.Seek | agent.py:138 | `seek(offset)` sets the read position |
| FileContext.ProcessFile | agent.py:130-140 | a file that raises on reading is skipped with its position unchanged; a `.csv` file gives a table exactly when it is bound; a non-`.csv` file that can be read is always bound, to a buffer of the bytes read; a skipped readable file is a `.csv` file whose parse raised, left at the end; a bound file is rewound to 0 |
| FileContext.Prepare | agent.py:123-141 | the file context is well formed, every variable name holds only [A-Za-z0-9_], and every file contributes one entry |
| FileContext.PrepareLast | agent.py:129-140 | one more file is one more loop iteration on the state the earlier files left |
| FileContext.PreparePrefix | agent.py:129 | files are processed in order: a prefix of the list contributes the same entries as the start of the whole list |
| FileContext.PrepareEntry | agent.py:129-140 | each file contributes what one iteration on it gives, starting from the position the earlier iterations left it at |
| FileContext.PrepareKeys | agent.py:129-140 | a variable name is bound exactly when some file with that sanitised name was processed without error |
| FileContext.PrepareLastWins | agent.py:129-137 | a name is bound to what the last file with that sanitised name that was processed without error contributed, so a later file overwrites an earlier one it collides with |
| FileContext.PrepareLeavesOthers | agent.py:129-140 | a file not in the list keeps its read position |
| FileContext.PrepareDistinct | agent.py:129-140 | when no file object is listed twice, each file is skipped, bound or rewound as processing it alone from its starting position says, whatever the other files do |
| FileContext.AddFile | agent.py:130-140 | the loop body reads the file, binds what it holds under its sanitised name and rewinds it, or leaves the context and skips the file when reading or parsing raises, exactly as `ProcessFile` says |
| FileContext.PrepareFileContext | agent.py:123-141 | no files give the empty context; otherwise the context and every file's final position are those of `Prepare` from the files' positions on entry |
| Scope.BaseScope | agent.py:145-151 | the scope literal binds the ten library names and `result`, in the literal's order |
| Scope.ExecutionScope | agent.py:143-153 | a name is bound exactly when it is a base name or a file variable; a file variable keeps its file value, shadowing a library of the same name; every other base name keeps its library; `result` is None unless a file is named `result`; the base names come first in the order |
| Scope.CreateExecutionScope | agent.py:143-153 | building the literal and then calling `update` gives `ExecutionScope` |
| Agent.ExtractCode | agent.py:79-82 | an extraction that raises carries the `IndexError` traceback; extracted code is never longer than the reply |
| Agent.ExtractCodeIsSplit | agent.py:81-82 | with the marker present, the extraction raises exactly when the split on the opening fence has fewer than two pieces, and otherwise gives piece 0, split on the closing fence, of piece 1 |
| Agent.ExtractCodeSpec | agent.py:81-82 | a reply without the marker is the code as it stands; the extraction raises exactly when the marker occurs without the opening fence; otherwise the code is the text right after the first opening fence, contains neither fence, and ends at a closing fence, at another opening fence or at the end of the reply; exactly, it ends at the first closing fence that lies wholly before the next opening fence, or at that opening fence (or the end) when there is none |
| Agent.ExtractCodeBetween | agent.py:81-82 | with an opening fence, the code is the text right after the first one, contains neither fence, and ends at a closing fence, at another opening fence or at the end of the reply |
| Agent.ExtractCodeFirstCut | agent.py:81-82 | with an opening fence, the code ends at the first closing fence lying wholly before the next opening fence, or at that opening fence or the end of the reply; a closing fence that runs into the next opening fence does not count |
| Agent.NoBackquoteIsCode | agent.py:81-82 | a reply with no backquote in it is run as it stands |
| Agent.FencedReplyGivesCode | agent.py:81-82 | a script without backquotes, fenced by the opening and the closing fence, is extracted exactly |
| Agent.NamesRepr | agent.py:65 | the repr of the list of names is `[]` for no names, and otherwise the names, each in single quotes and in order, joined by `", "` and bracketed |
| Agent.QuotedNamesIsJoin | agent.py:65 | the quoted names written one after another with `", "` between them are the quoted names joined by `", "` |
| Agent.UserPrompt | agent.py:59-67 | the prompt starts with the fixed header, the question follows it, then the fixed middle text, and the prompt ends with the fixed closing text |
| Agent.UserPromptListsFiles | agent.py:59-67 | the repr of the list of file variables stands in the user prompt right after the question and the fixed middle text |
| Agent.DebugPrompt | agent.py:105-119 | the prompt starts with the fixed header, the faulty code follows it, then the fixed middle text, then the traceback, and the prompt ends with the fixed closing text |
| Agent.UserPromptCarriesQuestion | agent.py:59-67 | the user prompt contains the question |
| Agent.DebugPromptCarriesAttempt | agent.py:105-119 | the repair prompt contains the faulty code and the full traceback |
| Agent.FailureMessage | agent.py:103 | the final error message starts "Agent failed after ", then `str(max_retries)` (decimal digits with no leading zero that read back as `max_retries`), then " attempts. Last error: ", and ends with the last traceback |
| Agent.DefaultFailureMessage | agent.py:31 | with the default budget, the message reads "Agent failed after 3 attempts. Last error: " followed by the traceback |
| Agent.ResultOf | agent.py:89-92 | the value a finished script returns is native, is None when it bound no `result`, and stands for the same thing as its `result` binding |
| Agent.AttemptOnce | agent.py:72-99 | a failed model call fails with empty code; a fence that cannot be split fails with the IndexError and the whole reply as code; a script that raises fails with the extracted code and the script's traceback; an attempt passes exactly when the model answered, the code was extracted and the script ran to the end, and then its value is the script's converted `result` |
| Agent.UntouchedResultIsNone | agent.py:86-95 | a script that runs to the end without assigning `result` succeeds with None, unless a file is named `result` |
| Agent.Budget | agent.py:71 | `range(max_retries)` has `max_retries` iterations, and none when `max_retries` is 0 or negative |
| Agent.NextPrompt | agent.py:75-119 | the prompt of the first attempt is the user prompt; after a failed attempt it is the repair prompt built from that attempt's code and traceback |
| Agent.OutcomeOf | agent.py:95-121 | no attempt gives the generic error; the outcome is success exactly when the last attempt passed, with that attempt's value; otherwise the error message ends with the last traceback |
| Agent.KeptPrompt | agent.py:38-119 | the stored repair prompt is the last attempt's prompt after two or more attempts, and the previous one otherwise |
| Agent.PromptsAppend | agent.py:78 | one more attempt adds its prompt to the end of the chat |
| Agent.Session | agent.py:71-121 | a session never exceeds its budget, extends the attempts it started from, has every attempt but the last failed, and ends early only on an attempt that passed |
| Agent.SessionSchedule | agent.py:71-119 | every attempt of a session sent the prompt due after the ones before it, and is the oracle's answer to the chat up to its own prompt |
| Agent.SessionAttempt | agent.py:71-119 | attempt 0 sends the user prompt; attempt k > 0 follows a failed attempt k-1 and sends the repair prompt built from k-1's code and traceback; attempt k is the oracle's answer to the prompts up to its own |
| Agent.SessionStep | agent.py:71-119 | one more attempt ends the session when it passes or spends the budget; otherwise the session goes on from it, with the chat extended by its prompt and the next prompt built from its code and traceback |
| Agent.SessionOutcome | agent.py:71-121 | with a budget of 0 or less there is no attempt and the generic error; otherwise the outcome is success exactly when the last attempt passed, with its native value and every earlier attempt failed, and an error exactly when all `max_retries` attempts failed, whose message is built from the last traceback |
| Agent.SessionAlwaysFailing | agent.py:97-103 | when every attempt fails the same way, the session makes exactly `max_retries` attempts and ends with the retry error for that traceback |
| Agent.RunSchedule | agent.py:71-119 | in a run, attempt 0 sends the user prompt, attempt k > 0 sends the repair prompt built from attempt k-1's code and traceback, and every attempt runs in the same execution scope on the chat so far |
| Agent.ModelCallFailureHasNoCode | agent.py:73-110 | after a failed model call the next repair prompt shows empty faulty code and the call's traceback |
| Agent.RunOutcome | agent.py:71-121 | the outcome of a run, as `SessionOutcome` states it, for the run's own attempts |
| Agent.AlwaysRaisingScriptFails | agent.py:71-103 | with the default budget, a model that always answers with a fenced script that raises gives three attempts, each running that script, and the error for that traceback |
| Agent.FirstScriptSucceeds | agent.py:71-95 | a first script that stores a list holding a numpy float as `result` makes the run succeed at once, with the native float |
| Agent.DataAnalystAgent.constructor | agent.py:31-38 | a new agent has the given retry budget and an empty stored repair prompt |
| Agent.DataAnalystAgent.Run | agent.py:53-121 | `run` prepares the file context and rewinds the files as `Prepare` says, returns the outcome of the session the user prompt opens in the execution scope, and leaves the stored repair prompt as the last attempt's prompt when there were at least two attempts and unchanged otherwise |
| Agent.DataAnalystAgent.Converse | agent.py:69-121 | the retry loop returns the outcome of the session and leaves the stored repair prompt as the session says |

## Left out

- The Gemini client, `exec`, `pd.read_csv` and `io.BytesIO` are oracles or
  opaque values, because they are foreign code. The model does not say what a
  script or a parse does, only how the agent uses the answer.
- The oracles are functions, so the model treats the language model as a
  deterministic function of the chat so far. Sampling randomness is not
  modelled.
- The system prompt text (agent.py:155-200) is not modelled, because it is a
  constant with no behaviour here. It is part of what the `chat` oracle
  answers to.
- `traceback.format_exc()` is not modelled: a traceback is an opaque string.
  The traceback of the `IndexError` raised by a malformed fence is the constant
  `IndexErrorTrace`.
- The text of the `print` calls is left out: it goes to the console and
  nothing reads it back. The model assumes no `print` raises. The lines
  below starting `Agent.AttemptOnce:`, `Agent.DataAnalystAgent.Run:` and
  `FileContext.Prepare:` say what happens in the source when one does.
- `main.py` and `app.py` are not part of this model. They are HTTP routing, a
  timeout and an upload echo.
- Floats are reals, so rounding in numpy's float types and in `float()` is not
  modelled. NaN and the infinities have no counterpart in the model.
- Cyclic lists or dicts, and the `RecursionError` the conversion would raise on
  them, are not modelled, because values are finite trees.
- Agent.AttemptOnce: the conversion of a result nested deeper than Python's
  recursion limit raises `RecursionError`, which `agent.py:97` catches as a
  failed attempt. The model's conversion has no depth limit, so such an
  attempt passes in the model.
- Agent.AttemptOnce: only `Exception` is caught at `agent.py:97`. A script
  that raises `SystemExit` (by calling `exit()`) or `KeyboardInterrupt`
  leaves `run` with no outcome and no retry. The model's `exec` oracle has no
  such answer.
- Agent.AttemptOnce: the `__import__` calls at `agent.py:147-148` and the
  `print` calls at `agent.py:84`, `90` and `93` sit inside the `try`. If one
  of them raises, the attempt fails. The model assumes they do not raise.
- Agent.AttemptOnce: the `print` at `agent.py:98` formats the exception with
  `str(e)` inside the `except` block. If that raises (an exception whose
  `__str__` raises, or a console that cannot encode the text), the new
  exception leaves `run` with no outcome and no retry. The model counts the
  attempt as failed and goes on.
- Agent.DataAnalystAgent.Run: the `print` calls at `agent.py:74` and `102`
  are outside the `try`. If one raises, `run` raises with no outcome.
- FileContext.Prepare: the `print` at `agent.py:140` runs in the handler of
  `_prepare_file_context`. If it raises (a file name or exception text the
  console cannot encode, or an exception whose `__str__` raises), the
  exception leaves `_prepare_file_context`, and `run` fails before its first
  attempt. The model skips the file and goes on.
- Agent.AttemptOnce: `exec` is a function of the script and the scope, so a
  script that reads the network, the clock or a random source gives the same
  answer on every attempt. A transient failure followed by a success of the
  same script is not modelled.
- Agent.DataAnalystAgent.Run: each attempt builds a fresh scope dict
  (`agent.py:86`). The model builds it once per run with
  `CreateExecutionScope` and gives the same scope to every attempt. The dict
  contents are the same either way, because neither the literal nor the
  file context changes between attempts.
- Agent.DataAnalystAgent.Run: the DataFrame and BytesIO objects in the scope
  are shared with the file context. A script that mutates them changes what
  later attempts see. The model treats them as immutable values.
- Agent.DataAnalystAgent.Run: the loop calls `Converse`, and `Converse` calls
  the attempt function `Attempts` instead of spelling out the attempt body.
  The attempt is the pure function `AttemptOnce`.
- Agent.NamesRepr: it renders `list(file_context.keys())` as Python's repr
  does only for names without quotes or backslashes. Sanitised names never
  contain either.
- Reading an upload that raises is modelled by a `closed` flag on the upload,
  because the reasons a read raises lie in the server's file objects.
