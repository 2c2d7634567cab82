/**
 * The page component of the content-strategy app (App.tsx): the selected
 * methodology and prompt, the form values, and the loading, result and
 * error state around one generation request.  React's state setters become
 * field assignments in program order; the generation service is a function
 * parameter that returns either a text or an error message.
 */
module ContentApp {
  import opened Optional
  import opened Template

  /** One prompt of a methodology: a template with `[field]` tokens and the
      fields the form asks for. */
  datatype MethodologyPrompt = MethodologyPrompt(id: string, promptLabel: string, template: string, fields: seq<string>)

  /** A methodology of the catalog; an absent `isSubPromptSystem` is `false`. */
  datatype Methodology = Methodology(
    id: string, title: string, description: string, icon: string,
    prompts: seq<MethodologyPrompt>, isSubPromptSystem: bool)

  /** What the awaited `generateContent` call ends with: the generated text,
      or a thrown error carrying its message (`""` when it has none). */
  datatype Outcome = Generated(text: string) | Failed(message: string)

  const ReassuringMessages: seq<string> := [
    "Analisando tendências virais...",
    "Aplicando gatilhos psicológicos...",
    "Estruturando roteiros magnéticos...",
    "Hackeando o algoritmo...",
    "Otimizando retenção...",
    "Finalizando estratégia..."
  ]

  const EmptyResponse: string := "Sem resposta."

  const GenerationFailure: string :=
    "Houve um erro na geração via IA. Verifique sua chave de API nas configurações do Vercel."

  /** `generated || 'Sem resposta.'`: a success always leaves a non-empty result. */
  function ResultText(generated: string): (r: string)
    ensures r != ""
    ensures generated != "" ==> r == generated
    ensures generated == "" ==> r == EmptyResponse
  {
    if generated == "" then EmptyResponse else generated
  }

  /** `err.message || fallback`: a failure always leaves a non-empty error. */
  function ErrorText(message: string): (r: string)
    ensures r != ""
    ensures message != "" ==> r == message
    ensures message == "" ==> r == GenerationFailure
  {
    if message == "" then GenerationFailure else message
  }

  /** The methodology context passed to the generation service. */
  function RequestTitle(m: Methodology, p: MethodologyPrompt): (r: string)
    ensures |r| == |m.title| + 3 + |p.promptLabel|
    ensures r[..|m.title|] == m.title
    ensures r[|m.title|..|m.title| + 3] == " - "
    ensures r[|m.title| + 3..] == p.promptLabel
  {
    m.title + " - " + p.promptLabel
  }

  // ---------------------------------------------------------------------
  // The loading-message ticker

  /** The index after `i` among `n` messages: the next one, and 0 after
      the last. */
  function TickerNext(i: nat, n: nat): (j: nat)
    requires i < n
    ensures j < n
    ensures j == (i + 1) % n
  {
    if i + 1 < n then i + 1 else 0
  }

  /** The ticker's index after `t` interval callbacks over `n` messages. */
  function TickerIndex(t: nat, n: nat): (i: nat)
    requires n > 0
    ensures i < n
  {
    if t == 0 then 0 else TickerNext(TickerIndex(t - 1, n), n)
  }

  /** One interval callback: `i = (i + 1) % messages.length` and the
      message at the new index is shown. */
  method Tick(messages: seq<string>, i: nat) returns (next: nat, message: string)
    requires i < |messages|
    ensures next == TickerNext(i, |messages|) && message == messages[next]
  {
    next := (i + 1) % |messages|;
    message := messages[next];
  }

  /** In the first round the ticker shows the messages in order. */
  lemma {:induction false} TickerFirstRound(t: nat, n: nat)
    requires t < n
    ensures TickerIndex(t, n) == t
  {
    if t > 0 {
      TickerFirstRound(t - 1, n);
    }
  }

  /** After `n` callbacks the ticker is back where it was. */
  lemma {:induction false} TickerPeriodic(t: nat, n: nat)
    requires n > 0
    ensures TickerIndex(t + n, n) == TickerIndex(t, n)
  {
    if t == 0 {
      TickerFirstRound(n - 1, n);
    } else {
      TickerPeriodic(t - 1, n);
    }
  }

  /** The ticker's index after `t` more callbacks, starting from index `i`. */
  function TickerAfter(i: nat, t: nat, n: nat): (j: nat)
    requires i < n
    ensures j < n
  {
    if t == 0 then i else TickerNext(TickerAfter(i, t - 1, n), n)
  }

  /** A ticker started at the first message is at `TickerIndex(t)`. */
  lemma {:induction false} TickerAfterStart(t: nat, n: nat)
    requires n > 0
    ensures TickerAfter(0, t, n) == TickerIndex(t, n)
  {
    if t > 0 {
      TickerAfterStart(t - 1, n);
    }
  }

  /** The messages the ticker shows while loading, after `ticks` interval
      callbacks: the first message at once, then the next one, cyclically,
      per tick. The component runs it over `ReassuringMessages`. */
  method TickerSchedule(messages: seq<string>, ticks: nat) returns (shown: seq<string>)
    requires |messages| > 0
    ensures |shown| == ticks + 1
    ensures forall t :: 0 <= t <= ticks ==> shown[t] == messages[TickerIndex(t, |messages|)]
  {
    var i := 0;
    shown := [messages[0]];
    var t := 0;
    while t < ticks
      invariant 0 <= t <= ticks && i == TickerIndex(t, |messages|) && |shown| == t + 1
      invariant forall u :: 0 <= u <= t ==> shown[u] == messages[TickerIndex(u, |messages|)]
    {
      var message;
      i, message := Tick(messages, i);
      t := t + 1;
      shown := shown + [message];
    }
  }

  /** The first round shows every message, in order. */
  lemma TickerShowsEveryMessage(messages: seq<string>, shown: seq<string>, ticks: nat)
    requires |messages| > 0 && |shown| == ticks + 1
    requires forall t :: 0 <= t <= ticks ==> shown[t] == messages[TickerIndex(t, |messages|)]
    ensures forall k :: 0 <= k < |messages| && k <= ticks ==> shown[k] == messages[k]
  {
    forall k | 0 <= k < |messages| && k <= ticks
      ensures shown[k] == messages[k]
    {
      TickerFirstRound(k, |messages|);
    }
  }

  /** The messages repeat with the number of messages as the period. */
  lemma TickerRepeats(messages: seq<string>, shown: seq<string>, ticks: nat)
    requires |messages| > 0 && |shown| == ticks + 1
    requires forall t :: 0 <= t <= ticks ==> shown[t] == messages[TickerIndex(t, |messages|)]
    ensures forall t :: 0 <= t && t + |messages| <= ticks ==> shown[t + |messages|] == shown[t]
  {
    forall t | 0 <= t && t + |messages| <= ticks
      ensures shown[t + |messages|] == shown[t]
    {
      TickerPeriodic(t, |messages|);
    }
  }

  // ---------------------------------------------------------------------
  // The component state

  /** The counter `i` of the loading interval: an index of a message. */
  type MessageIndex = i: nat | i < |ReassuringMessages|

  class App {
    var selectedMethod: Option<Methodology>
    var selectedPrompt: Option<MethodologyPrompt>
    var formValues: seq<Entry>
    var loading: bool
    var loadingMessage: string
    var tickerIndex: MessageIndex
    var result: Option<string>
    var error: Option<string>

    /** `formValues` is a JavaScript object: each key occurs once. */
    predicate Valid()
      reads this
    {
      Distinct(Keys(formValues))
    }

    /** What the page shows stays coherent: a selected prompt belongs to the
        selected methodology and the form holds exactly its fields; with no
        prompt the form is empty. */
    ghost predicate Consistent()
      reads this
    {
      && (selectedPrompt.Some? ==>
            && selectedMethod.Some?
            && selectedPrompt.value in selectedMethod.value.prompts
            && forall k :: k in Keys(formValues) <==> k in selectedPrompt.value.fields)
      && (selectedPrompt.None? ==> formValues == [])
    }

    /** The initial `useState` values. */
    constructor ()
      ensures selectedMethod == None && selectedPrompt == None && formValues == []
      ensures !loading && loadingMessage == "" && tickerIndex == 0 && result == None && error == None
      ensures Valid() && Consistent()
    {
      selectedMethod := None;
      selectedPrompt := None;
      formValues := [];
      loading := false;
      loadingMessage := "";
      tickerIndex := 0;
      result := None;
      error := None;
    }

    /** `handleMethodSelect(m)`: a methodology without sub-prompts opens its
        first prompt with a blank form; otherwise no prompt is open. */
    method HandleMethodSelect(m: Methodology)
      modifies this
      ensures selectedMethod == Some(m) && result == None && error == None
      ensures !m.isSubPromptSystem && |m.prompts| > 0 ==>
        selectedPrompt == Some(m.prompts[0]) && formValues == BlankForm(m.prompts[0].fields)
      ensures m.isSubPromptSystem || |m.prompts| == 0 ==>
        selectedPrompt == None && formValues == []
      ensures loading == old(loading) && loadingMessage == old(loadingMessage) && tickerIndex == old(tickerIndex)
      ensures Valid() && Consistent()
    {
      selectedMethod := Some(m);
      result := None;
      error := None;
      if !m.isSubPromptSystem && |m.prompts| > 0 {
        selectedPrompt := Some(m.prompts[0]);
        var initialValues := InitialValues(m.prompts[0].fields);
        formValues := initialValues;
      } else {
        selectedPrompt := None;
        formValues := [];
      }
    }

    /** `handlePromptSelect(p)`: the form is reset to `p`'s fields, each
        mapped to `""`, and the last result and error are cleared. */
    method HandlePromptSelect(p: MethodologyPrompt)
      modifies this
      ensures selectedPrompt == Some(p) && result == None && error == None
      ensures formValues == BlankForm(p.fields)
      ensures forall k :: k in Keys(formValues) <==> k in p.fields
      ensures forall k :: k in p.fields ==> Lookup(formValues, k) == Some("")
      ensures selectedMethod == old(selectedMethod)
      ensures loading == old(loading) && loadingMessage == old(loadingMessage) && tickerIndex == old(tickerIndex)
      ensures Valid()
      ensures old(selectedMethod).Some? && p in old(selectedMethod).value.prompts ==> Consistent()
    {
      selectedPrompt := Some(p);
      result := None;
      error := None;
      var initialValues := InitialValues(p.fields);
      formValues := initialValues;
    }

    /** `handleInputChange(field, value)`: `{...prev, [field]: value}`. */
    method HandleInputChange(field: string, value: string)
      requires Valid()
      modifies this
      ensures Lookup(formValues, field) == Some(value)
      ensures forall k :: k != field ==> Lookup(formValues, k) == Lookup(old(formValues), k)
      ensures Keys(formValues) ==
        if field in Keys(old(formValues)) then Keys(old(formValues)) else Keys(old(formValues)) + [field]
      ensures selectedMethod == old(selectedMethod) && selectedPrompt == old(selectedPrompt)
      ensures loading == old(loading) && loadingMessage == old(loadingMessage) && tickerIndex == old(tickerIndex)
      ensures result == old(result) && error == old(error)
      ensures Valid()
      ensures old(Consistent()) && selectedPrompt.Some? && field in selectedPrompt.value.fields ==> Consistent()
    {
      if field !in Keys(formValues) {
        DistinctAppend(Keys(formValues), field);
      }
      formValues := SetField(formValues, field, value);
    }

    /** The synchronous part of `handleSubmit`, up to the `await`: without a
        selected methodology and prompt nothing happens; otherwise loading
        starts, the last result and error are cleared, and the resolved
        prompt and the methodology title are returned.  The loading effect
        shows the first message when `loading` turns true. */
    method BeginSubmit() returns (request: Option<(string, string)>)
      requires LiteralEntries(formValues)
      modifies this
      ensures selectedMethod.None? || selectedPrompt.None? ==>
        request == None
        && loading == old(loading) && loadingMessage == old(loadingMessage) && tickerIndex == old(tickerIndex)
        && result == old(result) && error == old(error)
      ensures selectedMethod.Some? && selectedPrompt.Some? ==>
        request == Some((Resolve(selectedPrompt.value.template, formValues),
                         RequestTitle(selectedMethod.value, selectedPrompt.value)))
        && loading && result == None && error == None
        && loadingMessage == (if old(loading) then old(loadingMessage) else ReassuringMessages[0])
        && tickerIndex == (if old(loading) then old(tickerIndex) else 0)
      ensures selectedMethod == old(selectedMethod) && selectedPrompt == old(selectedPrompt)
      ensures formValues == old(formValues)
    {
      if selectedPrompt.None? || selectedMethod.None? {
        return None;
      }
      if !loading {
        tickerIndex := 0;
        loadingMessage := ReassuringMessages[0];
      }
      loading := true;
      error := None;
      result := None;
      var finalPrompt := ResolvePrompt(selectedPrompt.value.template, formValues);
      request := Some((finalPrompt, RequestTitle(selectedMethod.value, selectedPrompt.value)));
    }

    /** The part of `handleSubmit` after the `await`: the outcome lands in
        `result` or in `error`, and `finally` ends the loading state. */
    method FinishSubmit(outcome: Outcome)
      modifies this
      ensures !loading
      ensures outcome.Generated? ==> result == Some(ResultText(outcome.text)) && error == old(error)
      ensures outcome.Failed? ==> error == Some(ErrorText(outcome.message)) && result == old(result)
      ensures selectedMethod == old(selectedMethod) && selectedPrompt == old(selectedPrompt)
      ensures formValues == old(formValues) && loadingMessage == old(loadingMessage) && tickerIndex == old(tickerIndex)
    {
      match outcome {
        case Generated(text) =>
          result := Some(ResultText(text));
        case Failed(message) =>
          error := Some(ErrorText(message));
      }
      loading := false;
    }

    /** One callback of the loading interval, which runs only while
        loading: the counter moves on and its message is shown. */
    method LoadingTick()
      requires loading
      modifies this
      ensures tickerIndex == TickerNext(old(tickerIndex), |ReassuringMessages|)
      ensures loadingMessage == ReassuringMessages[tickerIndex]
      ensures selectedMethod == old(selectedMethod) && selectedPrompt == old(selectedPrompt)
      ensures formValues == old(formValues) && loading == old(loading)
      ensures result == old(result) && error == old(error)
    {
      var next, message := Tick(ReassuringMessages, tickerIndex);
      tickerIndex := next;
      loadingMessage := message;
    }

    /** `handleSubmit`: exactly one of `result` and `error` is set afterwards,
        to a non-empty text, and loading is over.  `ticks` interval callbacks
        fire while the request is awaited. */
    method HandleSubmit(generate: (string, string) -> Outcome, ticks: nat)
      requires LiteralEntries(formValues)
      modifies this
      ensures old(selectedMethod).None? || old(selectedPrompt).None? ==>
        loading == old(loading) && loadingMessage == old(loadingMessage) && tickerIndex == old(tickerIndex)
        && result == old(result) && error == old(error)
      ensures old(selectedMethod).Some? && old(selectedPrompt).Some? ==>
        var outcome := generate(Resolve(old(selectedPrompt).value.template, old(formValues)),
                                RequestTitle(old(selectedMethod).value, old(selectedPrompt).value));
        && !loading
        && (outcome.Generated? ==> result == Some(ResultText(outcome.text)) && error == None)
        && (outcome.Failed? ==> error == Some(ErrorText(outcome.message)) && result == None)
        && tickerIndex == TickerAfter(if old(loading) then old(tickerIndex) else 0, ticks, |ReassuringMessages|)
        && (ticks > 0 || !old(loading) ==> loadingMessage == ReassuringMessages[tickerIndex])
        && (ticks == 0 && old(loading) ==> loadingMessage == old(loadingMessage))
        && (!old(loading) ==> loadingMessage == ReassuringMessages[TickerIndex(ticks, |ReassuringMessages|)])
      ensures selectedMethod == old(selectedMethod) && selectedPrompt == old(selectedPrompt)
      ensures formValues == old(formValues)
      ensures old(Valid()) ==> Valid()
      ensures old(Consistent()) ==> Consistent()
    {
      ghost var start := if loading then tickerIndex else 0;
      var request := BeginSubmit();
      if request.Some? {
        var t := 0;
        while t < ticks
          invariant t <= ticks && loading && result == None && error == None
          invariant selectedMethod == old(selectedMethod) && selectedPrompt == old(selectedPrompt)
          invariant formValues == old(formValues)
          invariant tickerIndex == TickerAfter(start, t, |ReassuringMessages|)
          invariant t > 0 || !old(loading) ==> loadingMessage == ReassuringMessages[tickerIndex]
          invariant t == 0 && old(loading) ==> loadingMessage == old(loadingMessage)
        {
          LoadingTick();
          t := t + 1;
        }
        TickerAfterStart(ticks, |ReassuringMessages|);
        var outcome := generate(request.value.0, request.value.1);
        FinishSubmit(outcome);
      }
    }

    /** The result panel's clear button: `setResult(null)`. */
    method ClearResult()
      modifies this
      ensures result == None
      ensures selectedMethod == old(selectedMethod) && selectedPrompt == old(selectedPrompt)
      ensures formValues == old(formValues) && loading == old(loading)
      ensures loadingMessage == old(loadingMessage) && tickerIndex == old(tickerIndex) && error == old(error)
    {
      result := None;
    }

    /** `exportResult(format)`: nothing to download without a non-empty
        result; the markdown file is the result itself and the JSON file
        carries the result with the form values. */
    method ExportResult(format: ExportFormat) returns (download: Option<Download>)
      ensures download.None? <==> result.None? || result.value == ""
      ensures download.Some? && format == Md ==>
        download.value.content == MarkdownText(result.value) && download.value.mimeType == "text/markdown"
      ensures download.Some? && format == Json ==>
        download.value.content == JsonDocument(result.value, formValues)
        && download.value.mimeType == "application/json"
      ensures download.Some? ==> download.value.extension == FormatName(format)
    {
      if result.None? || result.value == "" {
        return None;
      }
      var content := if format == Json then JsonDocument(result.value, formValues) else MarkdownText(result.value);
      var mimeType := if format == Json then "application/json" else "text/markdown";
      download := Some(Download(content, mimeType, FormatName(format)));
    }
  }

  // ---------------------------------------------------------------------
  // Export

  datatype ExportFormat = Md | Json

  /** The `.md` / `.json` suffix of the downloaded file. */
  function FormatName(format: ExportFormat): string {
    match format
    case Md => "md"
    case Json => "json"
  }

  /** The file body before serialization: the result text, or the object
      `{ result, formValues }` that `JSON.stringify` writes out. */
  datatype ExportContent = MarkdownText(text: string) | JsonDocument(result: string, formValues: seq<Entry>)

  datatype Download = Download(content: ExportContent, mimeType: string, extension: string)
}
