/**
  The generate-execute-repair loop of `DataAnalystAgent.run`.  The language
  model, `exec` and `pd.read_csv` are oracles given as parameters:
  - `chat` answers the prompts sent so far in the session (the last one is the
    prompt being sent) with a reply text, or raises;
  - `exec` runs a script in a global scope and either raises or leaves the
    scope's final bindings;
  - `parseCsv` parses the bytes of a `.csv` upload, or raises.
 */
module Agent {
  import opened Values
  import opened Text
  import opened Namespaces
  import opened FileContext
  import opened Scope

  datatype Reply = Text(text: string) | ApiError(trace: string)
  datatype ExecResult = Raised(trace: string) | Finished(globals: Namespace)
  datatype Extracted = Code(code: string) | SplitError(trace: string)

  /** One attempt of the loop: the prompt sent, the code as it stood when the
      attempt ended, and what came of it. */
  datatype Attempt = Attempt(prompt: string, code: string, result: AttemptResult)
  datatype AttemptResult = Passed(value: Value) | Failed(trace: string)

  /** The dict `run` returns: status "success" with a result, or status
      "error" with a message. */
  datatype Outcome = Success(result: Value) | Error(message: string)

  const DefaultMaxRetries := 3
  const PythonMarker := "```python"
  const OpenFence := "```python\n"
  const CloseFence := "\n```"
  /** The traceback of the IndexError raised when the marker is present but
      no opening fence ends in a newline. */
  const IndexErrorTrace := "IndexError: list index out of range"
  const GenericFailure := "Agent failed to produce a working script."
  /** The text around the budget in the retry error. */
  const FailedAfter := "Agent failed after "
  const LastError := " attempts. Last error: "

  // ---------------------------------------------------------------- code fences

  /** The code taken from a reply: the reply itself when it has no Python
      fence marker; otherwise the second piece of a split on the opening
      fence, cut at the first closing fence (`ExtractCodeIsSplit`).  With the
      marker present but no opening fence (the marker not followed by a
      newline) the split has one piece and indexing it raises. */
  function ExtractCode(text: string): (r: Extracted)
    ensures r.SplitError? ==> r.trace == IndexErrorTrace
    ensures r.Code? ==> |r.code| <= |text|
  {
    if !Contains(text, PythonMarker) then Code(text)
    else match Find(text, OpenFence)
      case None => SplitError(IndexErrorTrace)
      case Some(i) => Code(Before(Before(text[i + |OpenFence|..], OpenFence), CloseFence))
  }

  /** The extraction is the split-and-index expression of the source: it
      raises exactly when the split on the opening fence has fewer than two
      pieces, and otherwise takes the first piece, on the closing fence, of
      the second piece. */
  lemma ExtractCodeIsSplit(text: string)
    requires Contains(text, PythonMarker)
    ensures ExtractCode(text).SplitError? <==> |Split(text, OpenFence)| < 2
    ensures ExtractCode(text).Code? ==>
              ExtractCode(text).code == Split(Split(text, OpenFence)[1], CloseFence)[0]
  {
    if Find(text, OpenFence).Some? {
      SplitSecond(text, OpenFence);
      SplitHead(Split(text, OpenFence)[1], CloseFence);
    }
  }

  lemma OccursInSuffix(s: string, pat: string, start: nat, j: nat)
    requires start <= |s|
    requires OccursAt(s[start..], pat, j)
    ensures OccursAt(s, pat, start + j)
  {
    forall k | 0 <= k < |pat| ensures s[start + j + k] == pat[k] {
      assert pat[k] == s[start..][j..j + |pat|][k];
    }
  }

  /** An occurrence inside a slice of `s` is an occurrence in `s`. */
  lemma OccursInSlice(s: string, a: nat, b: nat, pat: string, j: nat)
    requires a <= b <= |s|
    requires OccursAt(s[a..b], pat, j)
    ensures OccursAt(s, pat, a + j)
  {
    forall k | 0 <= k < |pat| ensures s[a + j + k] == pat[k] {
      assert pat[k] == s[a..b][j..j + |pat|][k];
    }
  }

  /** A piece found in a suffix of `text`, placed back in `text`. */
  lemma PieceInText(text: string, sep: string, start: nat, seg: string)
    requires start <= |text|
    requires |seg| <= |text[start..]| && text[start..][..|seg|] == seg
    requires |seg| == |text[start..]| || OccursAt(text[start..], sep, |seg|)
    ensures start + |seg| <= |text| && text[start..start + |seg|] == seg
    ensures start + |seg| == |text| || OccursAt(text, sep, start + |seg|)
  {
    assert text[start..][..|seg|] == text[start..start + |seg|];
    if |seg| < |text[start..]| {
      OccursInSuffix(text, sep, start, |seg|);
    }
  }

  /** A prefix `code` of a piece `seg` of `text`, cut at `close` or at the end
      of `seg`, placed back in `text`. */
  lemma PrefixOfPiece(text: string, open: string, close: string, start: nat, seg: string, code: string)
    requires start + |seg| <= |text| && text[start..start + |seg|] == seg
    requires !Contains(seg, open)
    requires start + |seg| == |text| || OccursAt(text, open, start + |seg|)
    requires |code| <= |seg| && seg[..|code|] == code
    requires |code| == |seg| || OccursAt(seg, close, |code|)
    ensures start + |code| <= |text| && text[start..start + |code|] == code
    ensures !Contains(code, open)
    ensures || start + |code| == |text|
            || OccursAt(text, close, start + |code|)
            || OccursAt(text, open, start + |code|)
  {
    assert text[start..start + |code|] == seg[..|code|];
    assert !Contains(code, open) by {
      forall j: nat | OccursAt(code, open, j) ensures false {
        OccursInPrefix(seg, open, |code|, j);
      }
    }
    if |code| < |seg| {
      OccursInSlice(text, start, start + |seg|, close, |code|);
    }
  }

  /** The two cuts of `CodeBetween`, given only what each cut guarantees. */
  lemma CutsInText(text: string, open: string, close: string, start: nat, seg: string, code: string)
    requires start <= |text|
    requires |seg| <= |text[start..]| && text[start..][..|seg|] == seg
    requires |seg| == |text[start..]| || OccursAt(text[start..], open, |seg|)
    requires !Contains(seg, open)
    requires |code| <= |seg| && seg[..|code|] == code
    requires |code| == |seg| || OccursAt(seg, close, |code|)
    ensures start + |code| <= |text| && text[start..start + |code|] == code
    ensures !Contains(code, open)
    ensures || start + |code| == |text|
            || OccursAt(text, close, start + |code|)
            || OccursAt(text, open, start + |code|)
  {
    PieceInText(text, open, start, seg);
    PrefixOfPiece(text, open, close, start, seg, code);
  }

  /** The second cut is the first `close` lying wholly before the next `open`
      (or the end of the text): a `close` that runs into the next `open` does
      not count. */
  lemma FirstCloseBeforeOpen(text: string, open: string, close: string, start: nat, seg: string, code: string)
    requires start <= |text|
    requires FirstAt(text[start..], open, 0, |seg|)
    requires text[start..][..|seg|] == seg
    requires FirstAt(seg, close, 0, |code|)
    ensures FirstAt(text[start..NextAt(text, open, start)], close, 0, |code|)
  {
    FirstAtShift(text, open, start, 0, |seg|);
    FirstAtUnique(text, open, start, start + |seg|, NextAt(text, open, start));
    assert text[start..start + |seg|] == seg;
  }

  /** `Before(Before(text after the first open, open), close)`, for any two
      separators: the text after the first `open`, up to the next `close`,
      the next `open`, or the end of the text. */
  lemma CodeBetween(text: string, open: string, close: string, i: nat)
    requires open != [] && close != []
    requires i + |open| <= |text|
    ensures var start := i + |open|;
            var code := Before(Before(text[start..], open), close);
            && start + |code| <= |text|
            && text[start..start + |code|] == code
            && !Contains(code, close)
            && !Contains(code, open)
            && (|| start + |code| == |text|
                || OccursAt(text, close, start + |code|)
                || OccursAt(text, open, start + |code|))
  {
    var start := i + |open|;
    var seg := Before(text[start..], open);
    CutsInText(text, open, close, start, seg, Before(seg, close));
  }

  lemma OpenFenceHasMarker(text: string)
    requires Contains(text, OpenFence)
    ensures Contains(text, PythonMarker)
  {
    var i: nat :| i <= |text| && OccursAt(text, OpenFence, i);
    assert text[i..i + |PythonMarker|] == text[i..i + |OpenFence|][..|PythonMarker|];
    assert OccursAt(text, PythonMarker, i);
  }

  /** Code extraction: a reply without the marker is the code as it stands; a
      reply with the marker but no opening fence raises; otherwise the code
      is the text that follows the first opening fence, up to the next closing
      fence, the next opening fence, or the end of the reply. */
  lemma ExtractCodeSpec(text: string)
    ensures !Contains(text, PythonMarker) ==> ExtractCode(text) == Code(text)
    ensures ExtractCode(text).SplitError? <==> Contains(text, PythonMarker) && !Contains(text, OpenFence)
    ensures Contains(text, OpenFence) ==>
              var start := Find(text, OpenFence).value + |OpenFence|;
              var code := ExtractCode(text).code;
              && ExtractCode(text).Code?
              && start + |code| <= |text|
              && text[start..start + |code|] == code
              && !Contains(code, CloseFence)
              && !Contains(code, OpenFence)
              && (|| start + |code| == |text|
                  || OccursAt(text, CloseFence, start + |code|)
                  || OccursAt(text, OpenFence, start + |code|))
              && FirstAt(text[start..NextAt(text, OpenFence, start)], CloseFence, 0, |code|)
  {
    if Contains(text, OpenFence) {
      ExtractCodeBetween(text);
      ExtractCodeFirstCut(text);
    }
  }

  /** With an opening fence, the code is the text right after the first one,
      free of both fences, and ends at a fence or at the end of the reply. */
  lemma ExtractCodeBetween(text: string)
    requires Contains(text, OpenFence)
    ensures var start := Find(text, OpenFence).value + |OpenFence|;
            var code := ExtractCode(text).code;
            && ExtractCode(text).Code?
            && start + |code| <= |text|
            && text[start..start + |code|] == code
            && !Contains(code, CloseFence)
            && !Contains(code, OpenFence)
            && (|| start + |code| == |text|
                || OccursAt(text, CloseFence, start + |code|)
                || OccursAt(text, OpenFence, start + |code|))
  {
    OpenFenceHasMarker(text);
    var i := Find(text, OpenFence).value;
    assert ExtractCode(text) == Code(Before(Before(text[i + |OpenFence|..], OpenFence), CloseFence));
    CodeBetween(text, OpenFence, CloseFence, i);
  }

  /** With an opening fence, the code runs to the first closing fence that
      ends before the next opening fence, or to that fence. */
  lemma ExtractCodeFirstCut(text: string)
    requires Contains(text, OpenFence)
    ensures var start := Find(text, OpenFence).value + |OpenFence|;
            && ExtractCode(text).Code?
            && FirstAt(text[start..NextAt(text, OpenFence, start)], CloseFence, 0, |ExtractCode(text).code|)
  {
    OpenFenceHasMarker(text);
    var start := Find(text, OpenFence).value + |OpenFence|;
    var seg := Before(text[start..], OpenFence);
    assert ExtractCode(text) == Code(Before(seg, CloseFence));
    BeforeIsFirst(text[start..], OpenFence);
    BeforeIsFirst(seg, CloseFence);
    FirstCloseBeforeOpen(text, OpenFence, CloseFence, start, seg, Before(seg, CloseFence));
  }

  /** A text without the first character of `pat` does not contain `pat`. */
  lemma MissingFirstChar(s: string, pat: string)
    requires pat != [] && forall i :: 0 <= i < |s| ==> s[i] != pat[0]
    ensures !Contains(s, pat)
  {
    forall i: nat | i <= |s| ensures !OccursAt(s, pat, i) {
      if i + |pat| <= |s| {
        assert s[i..i + |pat|][0] == s[i];
      }
    }
  }

  /** A reply with no backquote in it is run as it stands. */
  lemma NoBackquoteIsCode(text: string)
    requires forall i :: 0 <= i < |text| ==> text[i] != '`'
    ensures ExtractCode(text) == Code(text)
  {
    MissingFirstChar(text, PythonMarker);
  }

  // ---------------------------------------------------------------- prompts

  /** Python's repr of a list of names made of [A-Za-z0-9_] (no quote or
      backslash to escape): `['a', 'b']`. */
  function NamesRepr(names: seq<string>): (r: string)
    ensures names == [] ==> r == "[]"
    ensures names != [] ==> r == "[" + Join(Quoted(names), ", ") + "]"
    ensures 2 <= |r| && r[0] == '[' && r[|r| - 1] == ']'
  {
    var r := "[" + QuotedNames(names) + "]";
    if names == [] then r else QuotedNamesIsJoin(names); r
  }

  function QuotedNames(names: seq<string>): string {
    if names == [] then ""
    else if |names| == 1 then "'" + names[0] + "'"
    else "'" + names[0] + "', " + QuotedNames(names[1..])
  }

  /** Each name in single quotes, in order. */
  function Quoted(names: seq<string>): (q: seq<string>)
    ensures |q| == |names|
    ensures forall i :: 0 <= i < |names| ==> q[i] == "'" + names[i] + "'"
  {
    seq(|names|, i requires 0 <= i < |names| => "'" + names[i] + "'")
  }

  /** The repr is the quoted names joined by `", "`. */
  lemma {:induction false} QuotedNamesIsJoin(names: seq<string>)
    requires names != []
    ensures QuotedNames(names) == Join(Quoted(names), ", ")
  {
    if |names| > 1 {
      QuotedNamesIsJoin(names[1..]);
      assert Quoted(names)[1..] == Quoted(names[1..]);
    }
  }

  /** Where the two fields of a template `head + x + middle + y + tail` lie. */
  lemma Filled(head: string, x: string, middle: string, y: string, tail: string)
    ensures var p := head + x + middle + y + tail;
            var at := |head| + |x| + |middle|;
            && at + |y| + |tail| == |p|
            && p[..|head|] == head
            && p[|head|..|head| + |x|] == x
            && p[|head| + |x|..at] == middle
            && p[at..at + |y|] == y
            && p[|p| - |tail|..] == tail
  {
    var p := head + x + middle + y + tail;
    var at := |head| + |x| + |middle|;
    assert p[..|head|] == head;
    assert p[|head|..|head| + |x|] == x;
    assert p[|head| + |x|..at] == middle;
    assert p[at..at + |y|] == y;
    assert p[|p| - |tail|..] == tail;
  }

  const UserHead := "\n        User's question:\n        ---\n        "
  const UserMiddle := "\n        ---\n\n        You have been provided with the following data files, which are loaded into variables: "
  const UserTail := ".\n        Please generate a Python script to answer the user's question.\n        "

  /** The first prompt: the question and the file variables, in the order the
      file context first bound them. */
  function UserPrompt(question: string, names: seq<string>): (p: string)
    ensures |UserHead| + |question| + |UserMiddle| <= |p|
    ensures p[..|UserHead|] == UserHead
    ensures p[|UserHead|..|UserHead| + |question|] == question
    ensures p[|UserHead| + |question|..|UserHead| + |question| + |UserMiddle|] == UserMiddle
    ensures EndsWith(p, UserTail)
  {
    Filled(UserHead, question, UserMiddle, NamesRepr(names), UserTail);
    UserHead + question + UserMiddle + NamesRepr(names) + UserTail
  }

  const DebugHead := "\n                The previous attempt failed.\n\n                Faulty Code:\n                ---\n                "
  const DebugMiddle := "\n                ---\n\n                Error Message:\n                ---\n                "
  const DebugTail := "\n                ---\n\n                Please analyze the error and provide a corrected Python script.\n                "

  /** The prompt after a failed attempt: its code and its traceback. */
  function DebugPrompt(code: string, trace: string): (p: string)
    ensures var at := |DebugHead| + |code| + |DebugMiddle|;
            && at + |trace| <= |p|
            && p[..|DebugHead|] == DebugHead
            && p[|DebugHead|..|DebugHead| + |code|] == code
            && p[|DebugHead| + |code|..at] == DebugMiddle
            && p[at..at + |trace|] == trace
            && EndsWith(p, DebugTail)
  {
    Filled(DebugHead, code, DebugMiddle, trace, DebugTail);
    DebugHead + code + DebugMiddle + trace + DebugTail
  }

  lemma OccursShift(x: string, s: string, pat: string, i: nat)
    requires OccursAt(s, pat, i)
    ensures OccursAt(x + s, pat, |x| + i)
  {
    assert (x + s)[|x| + i..|x| + i + |pat|] == s[i..i + |pat|];
  }

  lemma OccursExtend(s: string, y: string, pat: string, i: nat)
    requires OccursAt(s, pat, i)
    ensures OccursAt(s + y, pat, i)
  {
    assert (s + y)[i..i + |pat|] == s[i..i + |pat|];
  }

  /** The repair prompt carries the faulty code and the full traceback. */
  lemma DebugPromptCarriesAttempt(code: string, trace: string)
    ensures Contains(DebugPrompt(code, trace), code)
    ensures Contains(DebugPrompt(code, trace), trace)
  {
    assert OccursAt(code, code, 0);
    OccursShift(DebugHead, code, code, 0);
    OccursExtend(DebugHead + code, DebugMiddle, code, |DebugHead|);
    OccursExtend(DebugHead + code + DebugMiddle, trace, code, |DebugHead|);
    OccursExtend(DebugHead + code + DebugMiddle + trace, DebugTail, code, |DebugHead|);
    assert OccursAt(trace, trace, 0);
    OccursShift(DebugHead + code + DebugMiddle, trace, trace, 0);
    OccursExtend(DebugHead + code + DebugMiddle + trace, DebugTail, trace, |DebugHead + code + DebugMiddle|);
  }

  /** The user prompt lists the file variables, as the repr of the list of
      their names, right after the question and the fixed middle text. */
  lemma UserPromptListsFiles(question: string, names: seq<string>)
    ensures var p := UserPrompt(question, names);
            var at := |UserHead| + |question| + |UserMiddle|;
            && at + |NamesRepr(names)| <= |p|
            && p[at..at + |NamesRepr(names)|] == NamesRepr(names)
  {
    Filled(UserHead, question, UserMiddle, NamesRepr(names), UserTail);
  }

  /** The user prompt carries the question. */
  lemma UserPromptCarriesQuestion(question: string, names: seq<string>)
    ensures Contains(UserPrompt(question, names), question)
  {
    assert OccursAt(question, question, 0);
    OccursShift(UserHead, question, question, 0);
    OccursExtend(UserHead + question, UserMiddle, question, |UserHead|);
    OccursExtend(UserHead + question + UserMiddle, NamesRepr(names), question, |UserHead|);
    OccursExtend(UserHead + question + UserMiddle + NamesRepr(names), UserTail, question, |UserHead|);
  }

  /** The final error message names the retry budget and ends with the last
      traceback. */
  function FailureMessage(maxRetries: nat, trace: string): (m: string)
    ensures EndsWith(m, trace)
    ensures var digits := |Decimal(maxRetries)|;
            && |m| == |FailedAfter| + digits + |LastError| + |trace|
            && m[..|FailedAfter|] == FailedAfter
            && m[|FailedAfter|..|FailedAfter| + digits] == Decimal(maxRetries)
            && DecimalValue(m[|FailedAfter|..|FailedAfter| + digits]) == maxRetries
            && m[|FailedAfter| + digits..|FailedAfter| + digits + |LastError|] == LastError
  {
    Framed(FailedAfter, Decimal(maxRetries), LastError, trace);
    DecimalRoundTrip(maxRetries);
    FailedAfter + Decimal(maxRetries) + LastError + trace
  }

  /** The four parts of `head + x + middle + tail`, read back by position. */
  lemma Framed(head: string, x: string, middle: string, tail: string)
    ensures var m := head + x + middle + tail;
            var at := |head| + |x|;
            && |m| == at + |middle| + |tail|
            && m[..|head|] == head
            && m[|head|..at] == x
            && m[at..at + |middle|] == middle
            && m[|m| - |tail|..] == tail
  {
    var m := head + x + middle + tail;
    var at := |head| + |x|;
    assert m[..|head|] == head;
    assert m[|head|..at] == x;
    assert m[at..at + |middle|] == middle;
    assert m[|m| - |tail|..] == tail;
  }

  // ---------------------------------------------------------------- one attempt

  /** The value a finished script leaves: its `result` binding (None when it
      has none), converted to native types. */
  function ResultOf(globals: Namespace): (v: Value)
    ensures Native(v)
    ensures "result" !in globals.binding ==> v == NoneV
    ensures Meaning(v) == Meaning(Get(globals, "result"))
  {
    ToNativePreservesMeaning(Get(globals, "result"));
    ToNative(Get(globals, "result"))
  }

  /** How one attempt ended: the code it shows in the next repair prompt, and
      its converted result or its traceback. */
  datatype Try = Try(code: string, result: AttemptResult)

  /** One pass of the loop body, given the prompts sent so far in the chat
      session (the last of them is this attempt's prompt).  A failed model
      call leaves empty code; a reply whose fence cannot be split keeps the
      whole reply as code; the attempt passes exactly when the model answered,
      the code was extracted and the script ran to the end, and then its
      value is the script's converted `result`. */
  function AttemptOnce(sent: seq<string>, scope: Namespace,
                       chat: seq<string> -> Reply, exec: (string, Namespace) -> ExecResult): (t: Try)
    ensures chat(sent).ApiError? ==> t == Try("", Failed(chat(sent).trace))
    ensures chat(sent).Text? && ExtractCode(chat(sent).text).SplitError? ==>
              t == Try(chat(sent).text, Failed(IndexErrorTrace))
    ensures chat(sent).Text? && ExtractCode(chat(sent).text).Code? ==>
              var code := ExtractCode(chat(sent).text).code;
              exec(code, scope).Raised? ==> t == Try(code, Failed(exec(code, scope).trace))
    ensures t.result.Passed? <==>
              && chat(sent).Text?
              && ExtractCode(chat(sent).text).Code?
              && exec(ExtractCode(chat(sent).text).code, scope).Finished?
    ensures t.result.Passed? ==>
              && t.code == ExtractCode(chat(sent).text).code
              && t.result.value == ResultOf(exec(t.code, scope).globals)
              && Native(t.result.value)
  {
    match chat(sent)
    case ApiError(e) => Try("", Failed(e))
    case Text(text) =>
      match ExtractCode(text)
      case SplitError(e) => Try(text, Failed(e))
      case Code(code) =>
        match exec(code, scope)
        case Raised(e) => Try(code, Failed(e))
        case Finished(g) => Try(code, Passed(ResultOf(g)))
  }

  /** The attempt oracle of a run: every attempt runs in a fresh scope built
      from the same file context. */
  function Attempts(scope: Namespace, chat: seq<string> -> Reply,
                    exec: (string, Namespace) -> ExecResult): seq<string> -> Try
  {
    sent => AttemptOnce(sent, scope, chat, exec)
  }

  /** A script that runs to the end without assigning `result` succeeds with
      None, unless an uploaded file was itself named `result`. */
  lemma UntouchedResultIsNone(sent: seq<string>, fileContext: Namespace,
                              chat: seq<string> -> Reply, exec: (string, Namespace) -> ExecResult)
    requires WellFormed(fileContext)
    requires "result" !in fileContext.binding
    requires chat(sent).Text? && ExtractCode(chat(sent).text).Code?
    requires var scope := ExecutionScope(fileContext);
             var ran := exec(ExtractCode(chat(sent).text).code, scope);
             ran.Finished? && Get(ran.globals, "result") == Get(scope, "result")
    ensures AttemptOnce(sent, ExecutionScope(fileContext), chat, exec).result == Passed(NoneV)
  {
  }

  // ---------------------------------------------------------------- the session

  function Budget(maxRetries: int): (b: nat)
    ensures maxRetries >= 0 ==> b == maxRetries
    ensures maxRetries < 0 ==> b == 0
  {
    if maxRetries < 0 then 0 else maxRetries
  }

  function Prompts(log: seq<Attempt>): (ps: seq<string>)
    ensures |ps| == |log|
    ensures forall k :: 0 <= k < |log| ==> ps[k] == log[k].prompt
  {
    seq(|log|, k requires 0 <= k < |log| => log[k].prompt)
  }

  lemma PromptsAppend(log: seq<Attempt>, a: Attempt)
    ensures Prompts(log + [a]) == Prompts(log) + [a.prompt]
  {
  }

  predicate AllFailed(log: seq<Attempt>) {
    forall k :: 0 <= k < |log| ==> log[k].result.Failed?
  }

  /** The prompt the next attempt sends: the user prompt first, then the
      repair prompt `repair` builds from the previous attempt's code and
      traceback. */
  function NextPrompt(log: seq<Attempt>, userPrompt: string, repair: (string, string) -> string): (p: string)
    requires AllFailed(log)
    ensures log == [] ==> p == userPrompt
    ensures log != [] ==> p == repair(log[|log| - 1].code, log[|log| - 1].result.trace)
  {
    if log == [] then userPrompt
    else repair(log[|log| - 1].code, log[|log| - 1].result.trace)
  }

  /** The attempts of one chat session, continuing from the failed attempts
      `log`: `step` answers the prompts sent so far, and attempts go on until
      one passes or the budget is spent. */
  function Session(log: seq<Attempt>, budget: nat, userPrompt: string,
                   repair: (string, string) -> string, step: seq<string> -> Try): (full: seq<Attempt>)
    requires |log| <= budget && AllFailed(log)
    ensures |log| <= |full| <= budget && full[..|log|] == log
    ensures forall k :: 0 <= k < |full| - 1 ==> full[k].result.Failed?
    ensures |full| < budget ==> full != [] && full[|full| - 1].result.Passed?
    decreases budget - |log|
  {
    if |log| == budget then log
    else
      var prompt := NextPrompt(log, userPrompt, repair);
      var t := step(Prompts(log) + [prompt]);
      var a := Attempt(prompt, t.code, t.result);
      if a.result.Passed? then log + [a]
      else Session(log + [a], budget, userPrompt, repair, step)
  }

  /** Each attempt of `log` sent the prompt due after the attempts before it,
      and is `step`'s answer to the prompts sent up to its own. */
  ghost predicate Scheduled(log: seq<Attempt>, userPrompt: string,
                            repair: (string, string) -> string, step: seq<string> -> Try) {
    forall k :: 0 <= k < |log| ==>
      && AllFailed(log[..k])
      && log[k].prompt == NextPrompt(log[..k], userPrompt, repair)
      && Try(log[k].code, log[k].result) == step(Prompts(log[..k + 1]))
  }

  lemma ScheduleExtend(log: seq<Attempt>, userPrompt: string,
                       repair: (string, string) -> string, step: seq<string> -> Try)
    requires AllFailed(log) && Scheduled(log, userPrompt, repair, step)
    ensures var prompt := NextPrompt(log, userPrompt, repair);
            var t := step(Prompts(log) + [prompt]);
            Scheduled(log + [Attempt(prompt, t.code, t.result)], userPrompt, repair, step)
  {
    var prompt := NextPrompt(log, userPrompt, repair);
    var t := step(Prompts(log) + [prompt]);
    var next := log + [Attempt(prompt, t.code, t.result)];
    assert Prompts(next) == Prompts(log) + [prompt];
    forall k | 0 <= k < |next|
      ensures AllFailed(next[..k])
      ensures next[k].prompt == NextPrompt(next[..k], userPrompt, repair)
      ensures Try(next[k].code, next[k].result) == step(Prompts(next[..k + 1]))
    {
      if k < |log| {
        assert next[..k] == log[..k];
        assert next[..k + 1] == log[..k + 1];
      } else {
        assert next[..k] == log;
        assert next[..k + 1] == next;
      }
    }
  }

  /** A session keeps to the schedule: the user prompt first, each repair
      prompt built from the attempt before it, each attempt the oracle's
      answer to the whole chat so far. */
  lemma {:induction false} SessionSchedule(log: seq<Attempt>, budget: nat, userPrompt: string,
                                           repair: (string, string) -> string, step: seq<string> -> Try)
    requires |log| <= budget && AllFailed(log)
    requires Scheduled(log, userPrompt, repair, step)
    ensures Scheduled(Session(log, budget, userPrompt, repair, step), userPrompt, repair, step)
    decreases budget - |log|
  {
    if |log| < budget {
      ScheduleExtend(log, userPrompt, repair, step);
      var prompt := NextPrompt(log, userPrompt, repair);
      var t := step(Prompts(log) + [prompt]);
      if t.result.Failed? {
        SessionSchedule(log + [Attempt(prompt, t.code, t.result)], budget, userPrompt, repair, step);
      }
    }
  }

  /** Attempt k of a session started from no attempts: its prompt, and the
      step's answer to the prompts sent up to its own. */
  lemma SessionAttempt(budget: nat, userPrompt: string, repair: (string, string) -> string,
                       step: seq<string> -> Try, k: nat)
    requires k < |Session([], budget, userPrompt, repair, step)|
    ensures var log := Session([], budget, userPrompt, repair, step);
            && (k == 0 ==> log[k].prompt == userPrompt)
            && (k > 0 ==> log[k - 1].result.Failed?
                          && log[k].prompt == repair(log[k - 1].code, log[k - 1].result.trace))
            && Try(log[k].code, log[k].result) == step(Prompts(log[..k + 1]))
  {
    SessionSchedule([], budget, userPrompt, repair, step);
    var log := Session([], budget, userPrompt, repair, step);
    assert AllFailed(log[..k]) && log[k].prompt == NextPrompt(log[..k], userPrompt, repair);
    if k > 0 {
      assert log[..k][k - 1] == log[k - 1];
    }
  }

  /** What `run` returns for a finished session. */
  function OutcomeOf(log: seq<Attempt>, maxRetries: int): (o: Outcome)
    ensures log == [] ==> o == Error(GenericFailure)
    ensures o.Success? <==> log != [] && log[|log| - 1].result.Passed?
    ensures o.Success? ==> o.result == log[|log| - 1].result.value
    ensures log != [] && o.Error? ==> EndsWith(o.message, log[|log| - 1].result.trace)
  {
    if log == [] then Error(GenericFailure)
    else match log[|log| - 1].result
      case Passed(v) => Success(v)
      case Failed(t) => Error(FailureMessage(Budget(maxRetries), t))
  }

  /** The repair prompt the agent keeps after a finished session: the prompt
      of the last attempt when there were at least two, since only attempts
      after the first send a repair prompt, and `previous` otherwise. */
  function KeptPrompt(log: seq<Attempt>, previous: string): (p: string)
    ensures |log| >= 2 ==> p == log[|log| - 1].prompt
    ensures |log| < 2 ==> p == previous
  {
    if |log| >= 2 then log[|log| - 1].prompt else previous
  }

  /** The outcome of a session started from no attempts, whatever its
      oracle, provided the oracle only passes with native values. */
  lemma SessionOutcome(maxRetries: int, userPrompt: string, repair: (string, string) -> string,
                       step: seq<string> -> Try)
    requires forall sent :: step(sent).result.Passed? ==> Native(step(sent).result.value)
    ensures var log := Session([], Budget(maxRetries), userPrompt, repair, step);
            var outcome := OutcomeOf(log, maxRetries);
            && |log| <= Budget(maxRetries)
            && (maxRetries <= 0 ==> log == [] && outcome == Error(GenericFailure))
            && (maxRetries > 0 ==> log != [])
            && (outcome.Success? <==> log != [] && log[|log| - 1].result.Passed?)
            && (outcome.Success? ==> outcome.result == log[|log| - 1].result.value && Native(outcome.result))
            && (outcome.Success? ==> forall k :: 0 <= k < |log| - 1 ==> log[k].result.Failed?)
            && (maxRetries > 0 && outcome.Error? ==>
                  && |log| == maxRetries
                  && AllFailed(log)
                  && outcome.message == FailureMessage(maxRetries, log[|log| - 1].result.trace))
  {
    var log := Session([], Budget(maxRetries), userPrompt, repair, step);
    if log != [] {
      SessionAttempt(Budget(maxRetries), userPrompt, repair, step, |log| - 1);
    }
  }

  /** A session whose oracle always fails the same way spends its whole
      budget, each attempt with that code and traceback. */
  lemma SessionAlwaysFailing(maxRetries: int, userPrompt: string, repair: (string, string) -> string,
                             step: seq<string> -> Try, code: string, trace: string)
    requires forall sent :: step(sent) == Try(code, Failed(trace))
    ensures var log := Session([], Budget(maxRetries), userPrompt, repair, step);
            && |log| == Budget(maxRetries)
            && (forall k :: 0 <= k < |log| ==> log[k].code == code && log[k].result == Failed(trace))
            && (maxRetries > 0 ==> OutcomeOf(log, maxRetries) == Error(FailureMessage(maxRetries, trace)))
  {
    var log := Session([], Budget(maxRetries), userPrompt, repair, step);
    forall k | 0 <= k < |log|
      ensures log[k].code == code && log[k].result == Failed(trace)
    {
      SessionAttempt(Budget(maxRetries), userPrompt, repair, step, k);
    }
  }

  /** One more attempt of a session that is to end as `full`: the attempt
      sends the prompt due and records the oracle's answer; the session ends
      with it when it passes or spends the budget, and goes on from it
      otherwise, with the chat and the next prompt extended accordingly. */
  lemma SessionStep(log: seq<Attempt>, budget: nat, userPrompt: string, repair: (string, string) -> string,
                    step: seq<string> -> Try, full: seq<Attempt>, prompt: string, t: Try)
    requires |log| < budget && AllFailed(log)
    requires Session(log, budget, userPrompt, repair, step) == full
    requires prompt == NextPrompt(log, userPrompt, repair)
    requires t == step(Prompts(log) + [prompt])
    ensures var next := log + [Attempt(prompt, t.code, t.result)];
            && (t.result.Passed? || |next| == budget ==> full == next)
            && (t.result.Failed? ==>
                  && AllFailed(next)
                  && Session(next, budget, userPrompt, repair, step) == full
                  && Prompts(next) == Prompts(log) + [prompt]
                  && NextPrompt(next, userPrompt, repair) == repair(t.code, t.result.trace))
  {
    PromptsAppend(log, Attempt(prompt, t.code, t.result));
  }

  /** The attempts of `run` once the file context is prepared: the session
      opened with the user prompt, repaired with the repair prompt, every
      attempt run in the execution scope. */
  function RunLog(maxRetries: int, userPrompt: string, scope: Namespace,
                  chat: seq<string> -> Reply, exec: (string, Namespace) -> ExecResult): seq<Attempt>
  {
    Session([], Budget(maxRetries), userPrompt, DebugPrompt, Attempts(scope, chat, exec))
  }

  /** The session a run performs, step by step: attempt 0 sends the user
      prompt, attempt k > 0 sends the repair prompt built from attempt k-1's
      code and traceback, and each attempt is what the oracles make of the
      prompts sent so far. */
  lemma RunSchedule(maxRetries: int, userPrompt: string, scope: Namespace,
                    chat: seq<string> -> Reply, exec: (string, Namespace) -> ExecResult, k: nat)
    requires k < |RunLog(maxRetries, userPrompt, scope, chat, exec)|
    ensures var log := RunLog(maxRetries, userPrompt, scope, chat, exec);
            && (k == 0 ==> log[k].prompt == userPrompt)
            && (k > 0 ==> log[k - 1].result.Failed?
                          && log[k].prompt == DebugPrompt(log[k - 1].code, log[k - 1].result.trace))
            && Try(log[k].code, log[k].result) == AttemptOnce(Prompts(log[..k + 1]), scope, chat, exec)
  {
    SessionAttempt(Budget(maxRetries), userPrompt, DebugPrompt, Attempts(scope, chat, exec), k);
  }

  /** A failed model call leaves no code: the next repair prompt shows empty
      faulty code with the call's traceback. */
  lemma ModelCallFailureHasNoCode(maxRetries: int, userPrompt: string, scope: Namespace,
                                  chat: seq<string> -> Reply, exec: (string, Namespace) -> ExecResult, k: nat)
    requires k + 1 < |RunLog(maxRetries, userPrompt, scope, chat, exec)|
    requires chat(Prompts(RunLog(maxRetries, userPrompt, scope, chat, exec)[..k + 1])).ApiError?
    ensures var log := RunLog(maxRetries, userPrompt, scope, chat, exec);
            && log[k].code == ""
            && log[k + 1].prompt == DebugPrompt("", chat(Prompts(log[..k + 1])).trace)
  {
    RunSchedule(maxRetries, userPrompt, scope, chat, exec, k);
    RunSchedule(maxRetries, userPrompt, scope, chat, exec, k + 1);
  }

  /** The outcome of a run: no attempt and the generic error when the budget
      is not positive; otherwise success exactly when the last attempt passed
      (with its native result, every earlier attempt having failed), and the
      retry error with the last traceback exactly when all `maxRetries`
      attempts failed. */
  lemma RunOutcome(maxRetries: int, userPrompt: string, scope: Namespace,
                   chat: seq<string> -> Reply, exec: (string, Namespace) -> ExecResult)
    ensures var log := RunLog(maxRetries, userPrompt, scope, chat, exec);
            var outcome := OutcomeOf(log, maxRetries);
            && |log| <= Budget(maxRetries)
            && (maxRetries <= 0 ==> log == [] && outcome == Error(GenericFailure))
            && (maxRetries > 0 ==> log != [])
            && (outcome.Success? <==> log != [] && log[|log| - 1].result.Passed?)
            && (outcome.Success? ==> outcome.result == log[|log| - 1].result.value && Native(outcome.result))
            && (outcome.Success? ==> forall k :: 0 <= k < |log| - 1 ==> log[k].result.Failed?)
            && (maxRetries > 0 && outcome.Error? ==>
                  && |log| == maxRetries
                  && AllFailed(log)
                  && outcome.message == FailureMessage(maxRetries, log[|log| - 1].result.trace))
  {
    var step := Attempts(scope, chat, exec);
    forall sent ensures step(sent).result.Passed? ==> Native(step(sent).result.value) {
    }
    SessionOutcome(maxRetries, userPrompt, DebugPrompt, step);
  }

  lemma FindIs(s: string, pat: string, i: nat)
    requires OccursAt(s, pat, i)
    requires forall j: nat :: j < i ==> !OccursAt(s, pat, j)
    ensures Find(s, pat) == Some(i)
  {
    assert i <= |s|;
  }

  /** A reply that fences a script free of backquotes yields that script. */
  lemma FencedReplyGivesCode(script: string)
    requires forall i :: 0 <= i < |script| ==> script[i] != '`'
    ensures ExtractCode(OpenFence + script + CloseFence) == Code(script)
  {
    var seg := script + CloseFence;
    var text := OpenFence + seg;
    assert text == OpenFence + script + CloseFence;
    assert OccursAt(text, OpenFence, 0) by {
      assert text[..|OpenFence|] == OpenFence;
    }
    FindIs(text, OpenFence, 0);
    assert OccursAt(text, PythonMarker, 0) by {
      assert text[..|PythonMarker|] == PythonMarker;
    }
    assert text[|OpenFence|..] == seg;
    forall p: nat | p <= |seg| ensures !OccursAt(seg, OpenFence, p) {
      if p + |OpenFence| <= |seg| {
        assert seg[p..p + |OpenFence|][0] == seg[p] == script[p];
      }
    }
    assert !Contains(seg, OpenFence);
    assert Before(seg, OpenFence) == seg;
    forall p: nat | p < |script| ensures !OccursAt(seg, CloseFence, p) {
      assert seg[p..p + |CloseFence|][1] == seg[p + 1];
      if p + 1 < |script| {
        assert seg[p + 1] == script[p + 1];
      } else {
        assert seg[p + 1] == CloseFence[0];
      }
    }
    assert OccursAt(seg, CloseFence, |script|) by {
      assert seg[|script|..] == CloseFence;
    }
    FindIs(seg, CloseFence, |script|);
    assert seg[..|script|] == script;
  }

  /** The final message with the default budget. */
  lemma DefaultFailureMessage(trace: string)
    ensures FailureMessage(DefaultMaxRetries, trace) == "Agent failed after " + "3" + " attempts. Last error: " + trace
  {
    assert Decimal(3) == "3";
  }

  /** The failing scenario: a model that always answers with a fenced script
      that raises `trace` makes a three-attempt run fail with that trace,
      every attempt having run the script. */
  lemma AlwaysRaisingScriptFails(userPrompt: string, scope: Namespace, script: string, trace: string)
    requires forall i :: 0 <= i < |script| ==> script[i] != '`'
    ensures var chat := (sent: seq<string>) => Text(OpenFence + script + CloseFence);
            var exec := (code: string, g: Namespace) => Raised(trace);
            var log := RunLog(DefaultMaxRetries, userPrompt, scope, chat, exec);
            && |log| == 3
            && (forall k :: 0 <= k < 3 ==> log[k].code == script)
            && OutcomeOf(log, DefaultMaxRetries) == Error("Agent failed after " + "3" + " attempts. Last error: " + trace)
  {
    var chat := (sent: seq<string>) => Text(OpenFence + script + CloseFence);
    var exec := (code: string, g: Namespace) => Raised(trace);
    var step := Attempts(scope, chat, exec);
    FencedReplyGivesCode(script);
    forall sent ensures step(sent) == Try(script, Failed(trace)) {
    }
    SessionAlwaysFailing(DefaultMaxRetries, userPrompt, DebugPrompt, step, script, trace);
    DefaultFailureMessage(trace);
  }

  /** The succeeding scenario: a first script that stores a numpy float in a
      list as `result` makes the run succeed at once with the native float. */
  lemma FirstScriptSucceeds(userPrompt: string, scope: Namespace, script: string, x: real)
    requires forall i :: 0 <= i < |script| ==> script[i] != '`'
    ensures var chat := (sent: seq<string>) => Text(OpenFence + script + CloseFence);
            var exec := (code: string, g: Namespace) =>
                          Finished(Namespace(g.order, g.binding["result" := List([NpFloat(x)])]));
            var log := RunLog(DefaultMaxRetries, userPrompt, scope, chat, exec);
            && |log| == 1
            && log[0].code == script
            && OutcomeOf(log, DefaultMaxRetries) == Success(List([Float(x)]))
  {
    var chat := (sent: seq<string>) => Text(OpenFence + script + CloseFence);
    var exec := (code: string, g: Namespace) =>
                  Finished(Namespace(g.order, g.binding["result" := List([NpFloat(x)])]));
    var log := RunLog(DefaultMaxRetries, userPrompt, scope, chat, exec);
    FencedReplyGivesCode(script);
    RunOutcome(DefaultMaxRetries, userPrompt, scope, chat, exec);
    RunSchedule(DefaultMaxRetries, userPrompt, scope, chat, exec, 0);
    ListConvertedElementwise([NpFloat(x)], 0);
  }

  // ---------------------------------------------------------------- the agent

  class DataAnalystAgent {
    const maxRetries: int
    /** The repair prompt, kept on the instance between attempts (and runs). */
    var lastDebugPrompt: string

    constructor (maxRetries: int)
      ensures this.maxRetries == maxRetries && lastDebugPrompt == ""
    {
      this.maxRetries := maxRetries;
      lastDebugPrompt := "";
    }

    /** `run(question, uploaded_files)`: prepares the file context, then
        generates, executes and repairs scripts until one succeeds or
        `maxRetries` attempts have failed.  The stored repair prompt ends as
        the prompt of the last attempt when there were at least two, and is
        otherwise left as it was. */
    method Run(question: string, files: seq<Upload>, parseCsv: seq<byte> -> Option<Frame>,
               chat: seq<string> -> Reply, exec: (string, Namespace) -> ExecResult)
      returns (outcome: Outcome)
      modifies this, set f | f in files
      ensures var prepared := Prepare(files, old(Positions(files)), parseCsv);
              var log := RunLog(maxRetries, UserPrompt(question, prepared.context.order),
                                ExecutionScope(prepared.context), chat, exec);
              && outcome == OutcomeOf(log, maxRetries)
              && lastDebugPrompt == KeptPrompt(log, old(lastDebugPrompt))
              && forall f :: f in files ==> f.pos == prepared.pos[f]
    {
      var fileContext := PrepareFileContext(files, parseCsv);
      var userPrompt := UserPrompt(question, fileContext.order);
      var scope := CreateExecutionScope(fileContext);
      var step := Attempts(scope, chat, exec);
      ghost var log := RunLog(maxRetries, userPrompt, ExecutionScope(fileContext), chat, exec);
      assert log == Session([], Budget(maxRetries), userPrompt, DebugPrompt, step);
      outcome := Converse(userPrompt, DebugPrompt, step);
    }

    /** The retry loop of `run`, once the file context and the user prompt
        are ready: `repair` builds the repair prompt and `step` makes one
        attempt of the chat so far. */
    method Converse(userPrompt: string, repair: (string, string) -> string, step: seq<string> -> Try)
      returns (outcome: Outcome)
      modifies this
      ensures var log := Session([], Budget(maxRetries), userPrompt, repair, step);
              && outcome == OutcomeOf(log, maxRetries)
              && lastDebugPrompt == KeptPrompt(log, old(lastDebugPrompt))
    {
      ghost var full := Session([], Budget(maxRetries), userPrompt, repair, step);
      ghost var log: seq<Attempt> := [];
      var sent: seq<string> := [];
      var attempt := 0;
      while attempt < maxRetries
        invariant 0 <= attempt == |log| <= Budget(maxRetries)
        invariant attempt == 0 || attempt < maxRetries
        invariant AllFailed(log) && sent == Prompts(log)
        invariant Session(log, Budget(maxRetries), userPrompt, repair, step) == full
        invariant attempt > 0 ==> lastDebugPrompt == NextPrompt(log, userPrompt, repair)
        invariant attempt == 0 ==> lastDebugPrompt == old(lastDebugPrompt)
      {
        var promptToSend := if attempt == 0 then userPrompt else lastDebugPrompt;
        sent := sent + [promptToSend];
        var t := step(sent);
        ghost var a := Attempt(promptToSend, t.code, t.result);
        SessionStep(log, Budget(maxRetries), userPrompt, repair, step, full, promptToSend, t);
        assert KeptPrompt(log + [a], old(lastDebugPrompt))
            == if attempt == 0 then old(lastDebugPrompt) else promptToSend;
        if t.result.Passed? {
          return Success(t.result.value);
        }
        if attempt == maxRetries - 1 {
          return Error(FailureMessage(maxRetries, t.result.trace));
        }
        lastDebugPrompt := repair(t.code, t.result.trace);
        log := log + [a];
        attempt := attempt + 1;
      }
      outcome := Error(GenericFailure);
    }
  }
}
