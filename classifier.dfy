/** The intent classifier's pure part: the shapes of what goes into and comes
    out of a model call, the order in which the fallback loop tries models,
    which failures it records, and how the decoded answer is normalised into
    a classification (module, submodule, intent, reply, model, actions).

    The model call itself is an oracle: for each model name and prompt it
    either fails (the SDK raised, carrying the error text) or yields the
    cleaned response text. Decoding the text as a JSON object is a second
    oracle that yields the fields present in the object, or nothing when the
    text is not a JSON object. */
module Classifier {
  import opened Common
  import opened Sessions
  import opened ModelRegistry

  /** One requested side effect; each field is absent when the key is missing. */
  datatype Action = Action(kind: Option<string>, value: Option<string>)

  /** Outcome of asking one model. */
  datatype Reply = Fail(error: string) | Text(body: string)

  /** What the prompt is built from: the session's current position, its last
      five history entries and the new message. */
  datatype Prompt = Prompt(activeModule: string, activeSubmodule: string, recent: seq<Message>, text: string)

  /** The keys found in the decoded JSON object; a missing key is None. */
  datatype Decoded = Decoded(
    moduleName: Option<string>,
    submodule: Option<string>,
    intent: Option<string>,
    reply: Option<string>,
    actions: Option<seq<Action>>)

  datatype Classification = Classification(
    moduleName: string,
    submodule: string,
    intent: string,
    reply: string,
    model: string,
    actions: seq<Action>)

  /** How many history entries the prompt shows. */
  const RecentWindow: nat := 5

  /** The handler table's keys: a classification outside it is coerced to "Base". */
  const KnownModules: set<string> := {"Base", "Meal"}

  const GreetingReply := "How can I help you today?"
  const ApologyReply := "I'm sorry, I'm having trouble processing that right now."
  const DefaultReply := "I'm here to help!"
  const NoModel := "None"

  function PromptFor(activeModule: string, activeSubmodule: string, history: seq<Message>, text: string): (p: Prompt)
    ensures |p.recent| == if |history| <= RecentWindow then |history| else RecentWindow
    ensures p.recent == history[|history| - |p.recent|..]
    ensures p.activeModule == activeModule && p.activeSubmodule == activeSubmodule && p.text == text
  {
    Prompt(activeModule, activeSubmodule, Recent(history, RecentWindow), text)
  }

  /** The result for an empty message: no model is asked. */
  function Greeting(activeModule: string): Classification {
    Classification(activeModule, "Main", "Other", GreetingReply, NoModel, [])
  }

  /** The safe default every failure collapses into. */
  function Apology(activeModule: string): Classification {
    Classification(activeModule, "Main", "Other", ApologyReply, NoModel, [])
  }

  /** A reply that ends the fallback loop: text that is not empty. */
  predicate Answered(r: Reply) {
    r.Text? && r.body != ""
  }

  /** Position of the first model, in list order, whose reply ends the loop. */
  function FirstAnswer(models: seq<string>, oracle: (string, Prompt) -> Reply, prompt: Prompt): (k: Option<nat>)
    ensures k.Some? ==> k.value < |models| && Answered(oracle(models[k.value], prompt))
    ensures k.Some? ==> forall j :: 0 <= j < k.value ==> !Answered(oracle(models[j], prompt))
    ensures k.None? ==> forall j :: 0 <= j < |models| ==> !Answered(oracle(models[j], prompt))
  {
    if models == [] then None
    else if Answered(oracle(models[0], prompt)) then Some(0)
    else match FirstAnswer(models[1..], oracle, prompt)
      case None => None
      case Some(k) => Some(k + 1)
  }

  /** The models the loop asks: up to and including the first that answers,
      or all of them when none does. */
  function Tried(models: seq<string>, oracle: (string, Prompt) -> Reply, prompt: Prompt): (r: seq<string>)
    ensures |r| <= |models| && r == models[..|r|]
    ensures forall j :: 0 <= j < |r| - 1 ==> !Answered(oracle(r[j], prompt))
    ensures |r| < |models| ==> r != [] && Answered(oracle(r[|r| - 1], prompt))
  {
    match FirstAnswer(models, oracle, prompt)
    case Some(k) => models[..k + 1]
    case None => models
  }

  /** The failures met while asking `models` in order, one per model that raised. */
  function Failures(models: seq<string>, oracle: (string, Prompt) -> Reply, prompt: Prompt): (r: seq<Failure>)
  {
    if models == [] then []
    else
      var last := models[|models| - 1];
      Failures(models[..|models| - 1], oracle, prompt)
        + match oracle(last, prompt)
          case Fail(e) => [Failure(last, e)]
          case Text(_) => []
  }

  /** The failures a classification of `text` records: none for an empty
      message, else those of the models tried. */
  function Suspensions(text: string, available: seq<string>, oracle: (string, Prompt) -> Reply, prompt: Prompt): seq<Failure>
  {
    if text == "" then [] else Failures(Tried(available, oracle, prompt), oracle, prompt)
  }

  /** A model is recorded as failed exactly when it was asked and raised, with
      the error it raised. A model that returned empty text is not recorded. */
  lemma {:induction false} FailuresRecord(models: seq<string>, oracle: (string, Prompt) -> Reply, prompt: Prompt, name: string)
    ensures ErrorFor(Failures(models, oracle, prompt), name)
            == if name in models && oracle(name, prompt).Fail? then Some(oracle(name, prompt).error) else None
  {
    if models != [] {
      var n := |models| - 1;
      var prefix, last := models[..n], models[n];
      var before := Failures(prefix, oracle, prompt);
      FailuresRecord(prefix, oracle, prompt, name);
      assert models == prefix + [last];
      assert name in models <==> name in prefix || name == last;
      match oracle(last, prompt)
      case Fail(e) =>
        var fs := before + [Failure(last, e)];
        assert Failures(models, oracle, prompt) == fs;
        assert fs[..|fs| - 1] == before;
        if name == last {
          assert ErrorFor(fs, name) == Some(e);
        } else {
          assert ErrorFor(fs, name) == ErrorFor(before, name);
        }
      case Text(_) =>
        assert Failures(models, oracle, prompt) == before;
        assert name == last ==> !oracle(name, prompt).Fail?;
    }
  }

  /** When the models are distinct, so are the recorded failures. */
  lemma {:induction false} FailuresDistinct(models: seq<string>, oracle: (string, Prompt) -> Reply, prompt: Prompt)
    requires NoDuplicates(models)
    ensures NoDuplicates(FailedModels(Failures(models, oracle, prompt)))
    ensures forall x :: x in FailedModels(Failures(models, oracle, prompt)) ==> x in models
  {
    if models != [] {
      var n := |models| - 1;
      var prefix := models[..n];
      assert NoDuplicates(prefix) by {
        forall i, j | 0 <= i < j < |prefix| ensures prefix[i] != prefix[j] {
          assert models[i] != models[j];
        }
      }
      FailuresDistinct(prefix, oracle, prompt);
      var before := FailedModels(Failures(prefix, oracle, prompt));
      var fs := Failures(models, oracle, prompt);
      assert models[n] !in before by {
        forall k | 0 <= k < |prefix| ensures prefix[k] != models[n] {
          assert models[k] != models[n];
        }
      }
      match oracle(models[n], prompt)
      case Fail(e) =>
        assert FailedModels(fs) == before + [models[n]];
        forall i, j | 0 <= i < j < |FailedModels(fs)| ensures FailedModels(fs)[i] != FailedModels(fs)[j] {
          if j < |before| {
            assert FailedModels(fs)[i] == before[i] && FailedModels(fs)[j] == before[j];
          } else {
            assert FailedModels(fs)[i] == before[i];
          }
        }
      case Text(_) =>
        assert FailedModels(fs) == before;
    }
  }

  /** One more model asked: its failure, if it raised, is appended. */
  lemma FailuresStep(models: seq<string>, i: nat, oracle: (string, Prompt) -> Reply, prompt: Prompt)
    requires i < |models|
    ensures Failures(models[..i + 1], oracle, prompt)
            == Failures(models[..i], oracle, prompt)
               + match oracle(models[i], prompt)
                 case Fail(e) => [Failure(models[i], e)]
                 case Text(_) => []
  {
    assert models[..i + 1][..i] == models[..i];
  }

  /** Asking one more model adds its upsert to the run's effect on the models
      table when it raises, and nothing when it returns text. */
  lemma SuspendAllAsked(rows: seq<ModelRow>, processor: string, models: seq<string>, i: nat,
                        oracle: (string, Prompt) -> Reply, prompt: Prompt, now: int)
    requires i < |models|
    ensures SuspendAll(rows, processor, Failures(models[..i + 1], oracle, prompt), now)
            == match oracle(models[i], prompt)
               case Fail(e) => Suspend(SuspendAll(rows, processor, Failures(models[..i], oracle, prompt), now), processor, models[i], e, now)
               case Text(_) => SuspendAll(rows, processor, Failures(models[..i], oracle, prompt), now)
  {
    FailuresStep(models, i, oracle, prompt);
    var failed := Failures(models[..i], oracle, prompt);
    match oracle(models[i], prompt)
    case Fail(e) =>
      SuspendAllStep(rows, processor, failed, Failure(models[i], e), now);
    case Text(_) =>
      assert failed + [] == failed;
  }

  /** The loop stopped at position `i`: that is the first answer and the
      models tried are those up to it. */
  lemma StopsAt(models: seq<string>, i: nat, oracle: (string, Prompt) -> Reply, prompt: Prompt)
    requires i < |models| && Answered(oracle(models[i], prompt))
    requires forall j :: 0 <= j < i ==> !Answered(oracle(models[j], prompt))
    ensures FirstAnswer(models, oracle, prompt) == Some(i)
    ensures Failures(Tried(models, oracle, prompt), oracle, prompt) == Failures(models[..i], oracle, prompt)
  {
    FailuresStep(models, i, oracle, prompt);
  }

  /** The loop ran through the list: no model answered and all were tried. */
  lemma Exhausted(models: seq<string>, oracle: (string, Prompt) -> Reply, prompt: Prompt)
    requires forall j :: 0 <= j < |models| ==> !Answered(oracle(models[j], prompt))
    ensures FirstAnswer(models, oracle, prompt) == None
    ensures Tried(models, oracle, prompt) == models[..|models|]
  {
    assert models[..|models|] == models;
  }

  /** The fields of the decoded object with their defaults, the module coerced
      to "Base" when it names no handler, and the model that answered. */
  function Normalize(d: Decoded, activeModule: string, model: string): (c: Classification)
    ensures c.moduleName in KnownModules
    ensures d.moduleName.GetOr(activeModule) in KnownModules ==> c.moduleName == d.moduleName.GetOr(activeModule)
    ensures d.moduleName.GetOr(activeModule) !in KnownModules ==> c.moduleName == "Base"
    ensures d.submodule.Some? ==> c.submodule == d.submodule.value
    ensures d.submodule.None? ==> c.submodule == "Main"
    ensures d.intent.Some? ==> c.intent == d.intent.value
    ensures d.intent.None? ==> c.intent == "Other"
    ensures d.reply.Some? ==> c.reply == d.reply.value
    ensures d.reply.None? ==> c.reply == DefaultReply
    ensures d.actions.Some? ==> c.actions == d.actions.value
    ensures d.actions.None? ==> c.actions == []
    ensures c.model == model
  {
    var moduleName := d.moduleName.GetOr(activeModule);
    Classification(
      if moduleName in KnownModules then moduleName else "Base",
      d.submodule.GetOr("Main"),
      d.intent.GetOr("Other"),
      d.reply.GetOr(DefaultReply),
      model,
      d.actions.GetOr([]))
  }

  /** `analyze_intent` as a function of the list of available models (read
      once, before the loop), the model oracle and the decoder. */
  function Classify(text: string, activeModule: string, available: seq<string>,
                    oracle: (string, Prompt) -> Reply, prompt: Prompt,
                    decode: string -> Option<Decoded>): (c: Classification)
    ensures text == "" ==> c == Greeting(activeModule)
    ensures c.moduleName in KnownModules || c.moduleName == activeModule
    ensures c.model == NoModel || c.model in available
    ensures c.model != NoModel ==> Answered(oracle(c.model, prompt))
  {
    if text == "" then Greeting(activeModule)
    else if available == [] then Apology(activeModule)
    else match FirstAnswer(available, oracle, prompt)
      case None => Apology(activeModule)
      case Some(k) =>
        match decode(oracle(available[k], prompt).body)
        case None => Apology(activeModule)
        case Some(d) => Normalize(d, activeModule, available[k])
  }

  /** Every classification is one of three: the greeting for an empty message;
      the apology, when no model answered or the answer did not decode; or a
      decoded answer whose module is a known one and whose model is the first
      available model, in list order, to return non-empty text. Once that
      first answer is known, which of the last two it is depends only on
      whether its text decodes. */
  lemma ClassifyOutcomes(text: string, activeModule: string, available: seq<string>,
                         oracle: (string, Prompt) -> Reply, prompt: Prompt,
                         decode: string -> Option<Decoded>)
    ensures var c := Classify(text, activeModule, available, oracle, prompt, decode);
            || (text == "" && c == Greeting(activeModule))
            || (text != "" && c == Apology(activeModule))
            || (text != "" && c.moduleName in KnownModules &&
                exists k :: 0 <= k < |available| && c.model == available[k]
                  && Answered(oracle(available[k], prompt))
                  && decode(oracle(available[k], prompt).body).Some?
                  && forall j :: 0 <= j < k ==> !Answered(oracle(available[j], prompt)))
    ensures forall k :: text != "" && FirstAnswer(available, oracle, prompt) == Some(k) ==>
              var c := Classify(text, activeModule, available, oracle, prompt, decode);
              var decoded := decode(oracle(available[k], prompt).body);
              && (decoded.Some? ==> c == Normalize(decoded.value, activeModule, available[k]))
              && (decoded.None? ==> c == Apology(activeModule))
  {
  }

  /** When no available model returns non-empty text (in particular when no
      model is available), a non-empty message gets the apology. */
  lemma NoAnswerIsApology(text: string, activeModule: string, available: seq<string>,
                          oracle: (string, Prompt) -> Reply, prompt: Prompt,
                          decode: string -> Option<Decoded>)
    requires text != ""
    requires forall j :: 0 <= j < |available| ==> !Answered(oracle(available[j], prompt))
    ensures Classify(text, activeModule, available, oracle, prompt, decode) == Apology(activeModule)
  {
  }

  /** The effect of one classification on the models table, model by model:
      a model that was tried and raised is suspended once, with its error;
      every other model (not tried, answered, or returned empty text) keeps
      its row. An undecodable answer suspends nothing more. */
  lemma FallbackSuspensions(rows: seq<ModelRow>, processor: string, now: int, text: string,
                            oracle: (string, Prompt) -> Reply, prompt: Prompt, name: string)
    requires KeysUnique(rows)
    ensures var available := AvailableModels(rows, processor, now);
            var after := SuspendAll(rows, processor, Suspensions(text, available, oracle, prompt), now);
            Find(after, processor, name)
            == if text != "" && name in Tried(available, oracle, prompt) && oracle(name, prompt).Fail?
               then Some(Bumped(Find(rows, processor, name), processor, name, oracle(name, prompt).error, now))
               else Find(rows, processor, name)
  {
    var available := AvailableModels(rows, processor, now);
    var tried := Tried(available, oracle, prompt);
    AvailableModelsDistinct(rows, processor, now);
    assert NoDuplicates(tried) by {
      forall i, j | 0 <= i < j < |tried| ensures tried[i] != tried[j] {
        assert tried[i] == available[i] && tried[j] == available[j];
      }
    }
    if text != "" {
      FailuresDistinct(tried, oracle, prompt);
      FailuresRecord(tried, oracle, prompt, name);
    }
    SuspendAllFind(rows, processor, Suspensions(text, available, oracle, prompt), now, name);
  }

  /** The model that answers and every model after it in the list keep their
      rows: they are neither suspended nor counted. */
  lemma AfterAnswerUntouched(rows: seq<ModelRow>, processor: string, now: int, text: string,
                             oracle: (string, Prompt) -> Reply, prompt: Prompt, k: nat, j: nat)
    requires KeysUnique(rows)
    requires FirstAnswer(AvailableModels(rows, processor, now), oracle, prompt) == Some(k)
    requires k <= j < |AvailableModels(rows, processor, now)|
    ensures var available := AvailableModels(rows, processor, now);
            var after := SuspendAll(rows, processor, Suspensions(text, available, oracle, prompt), now);
            Find(after, processor, available[j]) == Find(rows, processor, available[j])
  {
    var available := AvailableModels(rows, processor, now);
    AvailableModelsDistinct(rows, processor, now);
    FallbackSuspensions(rows, processor, now, text, oracle, prompt, available[j]);
    if j > k {
      assert available[j] !in available[..k + 1] by {
        forall i | 0 <= i < k + 1 ensures available[i] != available[j] {
          assert available[i] != available[j];
        }
      }
    }
  }
}
