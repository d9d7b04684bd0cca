# WhatsApp assistant bot: a Dafny model of its message core

`bot.py` is a WhatsApp assistant. It accepts messages only from whitelisted
senders. Each message is classified by a language model into a module
("Base" or "Meal"), a submodule, an intent, a reply text and a list of
actions. The bot then routes the classification to that module's handler and
sends back a composed reply.

Three SQLite tables hold its state:

- `whitelist`: the phone numbers that may talk to the bot.
- `models`: the language models of each provider. Each row carries a circuit
  breaker: when its suspension ends, an error counter and the last error.
- `sessions`: per sender, the active module and submodule and the recent
  conversation history.

This project models that core over in-memory state and proves what it
promises.

- `common.dfy` (`Common`): `Option`, ASCII lower-casing, and Python's
  substring test `pat in s`.
- `registry.dfy` (`ModelRegistry`): the models table as a sequence of rows
  keyed by (processor, name). It covers listing the available models
  (filter, then sort by error counter), the failure upsert of
  `suspend_model` (suspended for 24 hours, counter plus one), the
  insert-or-ignore of `add_model`, and the effect of a whole run of failures.
- `whitelist.dfy` (`Whitelist`): the whitelist as a duplicate-free sequence,
  with its insert-or-ignore and delete. The model keeps the numbers in
  insertion order; the listing query itself leaves the order open.
- `sessions.dfy` (`Sessions`): session rows, the default row for a new
  sender, the upsert, and the 20-entry history window.
- `classifier.dfy` (`Classifier`): `analyze_intent` as a function. The
  language-model call is an oracle from (model, prompt) to `Fail(error)` or
  `Text(cleaned text)`. JSON decoding is a second oracle that yields the
  fields present, or nothing. The file covers the order in which models are
  tried, which failures are recorded, the greeting and apology defaults, and
  the normalisation of the decoded fields.
- `handlers.dfy` (`Handlers`): `BaseModule.handle` and `MealModule.handle`
  as functions of the whitelist, and the effect of calling a handler once
  per action.
- `store.dfy` (`Store`): the database as objects. `DatabaseManager` holds the
  three tables as fields its methods update. `Session` is the mutable
  session record. `SessionManager` trims the history before saving.
- `bot.dfy` (`Bot`): the class `WhatsAppBot`. It has the fallback loop of
  `analyze_intent`, the handler call, the per-action dispatch loop, and
  `handle_message` (drop rules, user turn, classification, routing, reply
  composition, assistant turn).

Every method is specified by the functions of the pure modules. The
properties are lemmas about those functions.

The clock is an integer number of seconds passed in as `now`. The
language-model call and the JSON decoder are parameters.

## Model

| member | source | states |
|---|---|---|
| Common.ContainsMeansOccurs | bot.py:189 | `pat in s` holds exactly when `pat` occurs at some position of `s` |
| Common.Lower | bot.py:176 | the result has the input's length; each upper-case ASCII letter becomes its lower-case letter (code plus 32) and every other character is kept |
| Common.Contains | bot.py:189 | the empty pattern is always found, and a pattern found is no longer than the text |
| ModelRegistry.Find | bot.py:50-58 | a row found carries the key (processor, name); when none is found no row carries it |
| ModelRegistry.FindUnique | bot.py:50-58 | under the (processor, name) primary key, any row with the key is the row found |
| ModelRegistry.Suspend | bot.py:106-117 | the failure upsert as a function of the table; its contract is stated by `ModelRegistry.SuspendSize`, `SuspendFind`, `SuspendOthers`, `SuspendRows` and `SuspendKeysUnique` |
| ModelRegistry.SuspendSize | bot.py:106-117 | the failure upsert adds one row when the model had none and otherwise keeps the number of rows |
| ModelRegistry.SuspendFind | bot.py:106-117 | after a failure the model's row is suspended until now + 24h, its counter is one more than before (1 for a new row), and its last error is the new error |
| ModelRegistry.SuspendOthers | bot.py:106-117 | a failure upsert leaves every other (processor, name) row unchanged |
| ModelRegistry.SuspendRows | bot.py:106-117 | every row after the upsert is an old row or the upserted row |
| ModelRegistry.SuspendKeysUnique | bot.py:106-117 | the failure upsert keeps the primary key unique |
| ModelRegistry.SuspendAll | bot.py:306-310 | the failure upserts of one run, in the order they happened; its contract is stated by `ModelRegistry.SuspendAllSize`, `SuspendAllFind` and `SuspendAllKeysUnique` |
| ModelRegistry.SuspendAllSize | bot.py:306-310 | a run of failure upserts removes no row and adds at most one per failure |
| ModelRegistry.SuspendAllFind | bot.py:306-310 | when each model fails at most once in a run, each failed model is suspended once with its error, and every other row of the processor keeps its state |
| ModelRegistry.SuspendAllOtherProcessor | bot.py:306-310 | a run of upserts for one processor leaves every row of any other processor as it was |
| ModelRegistry.SuspendAllKeysUnique | bot.py:306-310 | a run of failure upserts keeps the primary key unique |
| ModelRegistry.RegisterKeepsExisting | bot.py:119-122 | registering a model that has a row changes nothing, so its counter and suspension are kept |
| ModelRegistry.RegisterFind | bot.py:119-122 | after registering, the model has its old row, or a fresh unsuspended row with counter 0; other keys are untouched |
| ModelRegistry.RegisterIdempotent | bot.py:119-122 | registering twice equals registering once |
| ModelRegistry.RegisterKeysUnique | bot.py:119-122 | registering keeps the primary key unique |
| ModelRegistry.Register | bot.py:119-122 | the insert-or-ignore adds one row when the model had none and otherwise keeps the number of rows |
| ModelRegistry.Candidates | bot.py:98-101 | the rows kept are exactly the table's rows of the processor that are unsuspended or whose suspension ended strictly before `now` |
| ModelRegistry.InsertByErrors | bot.py:102 | inserting adds exactly that row to the multiset of rows |
| ModelRegistry.InsertKeepsSorted | bot.py:102 | inserting into a list sorted by error counter keeps it sorted |
| ModelRegistry.SortByErrors | bot.py:102 | the result is sorted by non-decreasing error counter and is a permutation of the input |
| ModelRegistry.CandidatesSize | bot.py:98-101 | there are never more available rows than rows |
| ModelRegistry.AvailableModels | bot.py:95-104 | one name per available row of the processor |
| ModelRegistry.AvailableModelsMembers | bot.py:95-104 | a name is listed exactly when a row of that processor and name is unsuspended or its suspension ended strictly before `now` |
| ModelRegistry.AvailableModelsDistinct | bot.py:95-104 | under the primary key, the list names each model once |
| ModelRegistry.AvailableModelsSorted | bot.py:95-104 | the listed models' error counters are non-decreasing along the list |
| ModelRegistry.SuspendHides | bot.py:95-117 | after a failure at `now`, the model is not listed at any time up to and including now + 24h |
| ModelRegistry.SuspendExpires | bot.py:95-117 | after a failure at `now`, the model is listed again at any time after now + 24h |
| Whitelist.Added | bot.py:134-137 | after an insert-or-ignore, the members are the old ones plus the number; there are still no duplicates; a number already present changes nothing |
| Whitelist.Removed | bot.py:139-142 | after a delete, the members are the old ones minus the number; there are still no duplicates; deleting an absent number is a no-op |
| Whitelist.AddIdempotent | bot.py:134-137 | adding the same number twice leaves one entry |
| Whitelist.RemoveUndoesAdd | bot.py:134-142 | removing a number just added to a list that lacked it restores the list |
| Whitelist.MembershipFollowsLastOperation | bot.py:124-142 | a number is whitelisted right after it is added, and not right after it is removed |
| Sessions.Truncated | bot.py:158-163 | the kept history has at most 20 entries; it is the last entries of the input; it equals the input when that has at most 20 entries and has exactly 20 otherwise |
| Sessions.TruncatedAppend | bot.py:158-163 | trimming at every save keeps the same window as trimming once at the end |
| Sessions.TruncatedIdempotent | bot.py:158-163 | trimming a trimmed history changes nothing |
| Sessions.LoadAfterSave | bot.py:70-93 | after an upsert, loading that sender returns the saved module, submodule and history; other senders are unaffected |
| Sessions.SaveLoadRoundTrip | bot.py:70-93 | saving what was loaded changes no later load |
| Sessions.SaveTwice | bot.py:83-93 | a second upsert for the same sender replaces the first entirely |
| Sessions.Load | bot.py:70-81 | a known sender gets the stored row; an unknown sender gets module "Base", submodule "Main" and an empty history |
| Classifier.PromptFor | bot.py:237-266 | the prompt carries the last five history entries, or the whole history when it is shorter, as a suffix of it, together with the active module, the active submodule and the message text unchanged |
| Classifier.FirstAnswer | bot.py:275-305 | the loop stops at the first model, in list order, that returns non-empty text; none is found only if no model does |
| Classifier.Tried | bot.py:275-305 | the models asked are a prefix of the list; none but the last asked returned non-empty text; when the loop stops before the end, the last one asked did |
| Classifier.Failures | bot.py:306-310 | one failure per model asked that raised, in the order asked; its contract is stated by `Classifier.FailuresRecord` and `Classifier.FailuresDistinct` |
| Classifier.FailuresRecord | bot.py:306-310 | a model is recorded as failed exactly when it was asked and raised, with the error it raised; a model that returned empty text is not recorded |
| Classifier.FailuresDistinct | bot.py:275-310 | when the models are distinct, each failed model is recorded once, and only models that were asked are recorded |
| Classifier.Normalize | bot.py:316-326 | the module is always "Base" or "Meal": a decoded known module (or, when missing, the active one) is kept, any other becomes "Base"; submodule, intent, reply and actions are the decoded values when present and "Main", "Other", "I'm here to help!" and no actions when absent; the model is the one that answered |
| Classifier.Classify | bot.py:233-330 | an empty message gets the greeting; the module is a known one or the active one; a result that names a model names an available model that returned non-empty text |
| Classifier.ClassifyOutcomes | bot.py:233-330 | the result is the greeting for an empty message, the apology, or a decoded answer whose module is known and whose model is the first available model to return non-empty text; for a non-empty message whose first answer is known, the result is the normalised decoding of that answer when it decodes and the apology when it does not |
| Classifier.NoAnswerIsApology | bot.py:270-313 | when no available model returns non-empty text, and in particular when none is available, a non-empty message gets the apology |
| Classifier.FallbackSuspensions | bot.py:268-310 | model by model: one that was tried and raised is suspended once with its error; every other model keeps its row; an empty message suspends nothing |
| Classifier.AfterAnswerUntouched | bot.py:302-305 | the model that answers and every model after it in the list keep their rows |
| Handlers.SettingsEffect | bot.py:173-187 | a number is listed after the call exactly when the action adds it, or it was listed and the action does not remove it; outside "Settings" or with no action nothing changes |
| Handlers.HandlerFor | bot.py:391 | "Meal" gets the meal handler; every other name, unknown names included, gets the base handler |
| Handlers.ReadIntentIsSubstring | bot.py:189 | the read check holds exactly when "read" occurs in the lower-cased intent |
| Handlers.IsReadIntent | bot.py:189 | the read check holds exactly when the lower-cased intent contains "read"; the comparison with "Read whitelist" adds nothing |
| Handlers.Bullets | bot.py:193 | the listing begins with the line "- " and the first number, and a one-entry listing is that line alone |
| Handlers.BulletsAppend | bot.py:191-193 | each further whitelist entry adds one "- n" line at the end of the listing |
| Handlers.SettingsReply | bot.py:188-196 | the reply always begins with the AI reply, and is exactly the AI reply unless the call is a read in "Settings"; a read in "Settings" appends the empty-list notice when the whitelist is empty and the header and the bullet listing otherwise |
| Handlers.RouteKeepsNoDuplicates | bot.py:394-398 | routing any list of actions keeps the whitelist free of duplicates |
| Handlers.RouteEffect | bot.py:394-398 | a number the routed actions bring into the whitelist is the value of one of those actions |
| Handlers.RouteOutsideSettings | bot.py:174 | the "Meal" handler, or any handler outside "Settings", leaves the whitelist unchanged whatever the actions |
| Handlers.RouteStep | bot.py:397-398 | each further action runs the handler once more, on the whitelist the earlier actions left |
| Handlers.RemoveThenAdd | bot.py:176-182 | a message with a removal and then an add applies both, in that order |
| Handlers.ReadTwoEntries | bot.py:189-193 | the listing of a two-entry whitelist in answer to "Read whitelist" |
| Handlers.AddKindIgnoresCase | bot.py:176-182 | an action whose type lower-cases to "add_whitelist" or "create_whitelist", with a non-empty value, adds that value, whatever the case of its type |
| Handlers.RemoveKindIgnoresCase | bot.py:176-186 | an action whose type lower-cases to "remove_whitelist" or "delete_whitelist", with a non-empty value, removes that value, whatever the case of its type |
| Store.Session.constructor | bot.py:144-149 | the new session holds the given number and row |
| Store.DatabaseManager.constructor | bot.py:47-68 | the three tables start empty |
| Store.DatabaseManager.GetSession | bot.py:70-81 | a fresh session holding the stored row, or "Base", "Main" and an empty history for an unknown sender |
| Store.DatabaseManager.SaveSession | bot.py:83-93 | the sessions table gets the session's row under its number; the other tables are unchanged |
| Store.DatabaseManager.GetAvailableModels | bot.py:95-104 | returns the available list, with no duplicates, and each name backed by an available row of the processor |
| Store.DatabaseManager.SuspendModel | bot.py:106-117 | the models table becomes the failure upsert and stays keyed uniquely |
| Store.DatabaseManager.AddModel | bot.py:119-122 | the models table becomes the insert-or-ignore and stays keyed uniquely |
| Store.DatabaseManager.IsWhitelisted | bot.py:124-127 | true exactly when the number is in the whitelist |
| Store.DatabaseManager.GetWhitelist | bot.py:129-132 | every number, in store order |
| Store.DatabaseManager.AddToWhitelist | bot.py:134-137 | the whitelist becomes `Added`; the other tables are unchanged |
| Store.DatabaseManager.RemoveFromWhitelist | bot.py:139-142 | the whitelist becomes `Removed`; the other tables are unchanged |
| Store.SessionManager.constructor | bot.py:152-153 | the manager works on the given database |
| Store.SessionManager.GetSession | bot.py:155-156 | delegates to the database |
| Store.SessionManager.SaveSession | bot.py:158-163 | the session object's history is cut to its last 20 entries before the row is saved; module and submodule are kept |
| Bot.Compose | bot.py:400-405 | the text sent is the line "Module: <module>", the line "Intent: <intent>", the line "Model: <model>", an empty line, then the handler's reply, with nothing else |
| Bot.ComposeKeepsReply | bot.py:400-405 | the handler's reply is determined by the text sent and its header |
| Bot.Accepted | bot.py:333-342 | a message is handled exactly when it is not an outbound echo and its sender is present and whitelisted |
| Bot.UserTurn | bot.py:363-366 | the loaded session keeps its module and submodule; its history ends with the user's message and holds the loaded history plus that message, or its last 20 entries when that is longer; the entries before the new one are the latest of the loaded history |
| Bot.WhatsAppBot.constructor | bot.py:205-231 | a bot over a fresh, empty database |
| Bot.WhatsAppBot.AnalyzeIntent | bot.py:233-330 | the classification is `Classify` over the models available at `now`, and the models table becomes the run's failure upserts |
| Bot.WhatsAppBot.AskUntilAnswer | bot.py:275-310 | the loop stops at the first model that returns non-empty text, with that text, or at the end of the list with none; the models table becomes the upserts of the models before the stop that raised |
| Bot.WhatsAppBot.AskInOrder | bot.py:275-313 | the fallback loop stops at the first answering model, returns its text, and suspends exactly the models before it that raised |
| Bot.WhatsAppBot.Handle | bot.py:172-200 | one handler call changes the whitelist by `HandleEffect` and returns `HandleReply` on the whitelist after it |
| Bot.WhatsAppBot.Dispatch | bot.py:391-398 | with no actions, one call without an action; otherwise one call per action in order, keeping only the last reply |
| Bot.WhatsAppBot.HandleMessage | bot.py:332-408 | an outbound echo, a sender not whitelisted, or a missing transport key changes no table and sends nothing; any other message has the effect `Conversed` describes |
| Bot.WhatsAppBot.Converse | bot.py:363-408 | loads the sender's session, records the user turn, classifies and answers, so that only the sender's session row changes |
| Bot.WhatsAppBot.Respond | bot.py:386-408 | classifies with the session as it stands, routes, composes, and records the assistant turn |
| Bot.WhatsAppBot.RecordUserTurn | bot.py:363-366 | the session loaded, or the default one, with the user turn appended and trimmed to 20 entries, is saved |
| Bot.WhatsAppBot.Answer | bot.py:388-408 | the session moves to the classified module and submodule; the whitelist gets the routed actions; the reply is composed; the assistant turn is saved |

## Left out

- The WhatsApp transport is not part of this model: Flask routes, webhook verification, the background task, marking as read, the typing indicator, and sending the reply. `HandleMessage` returns the text it would send, and assumes marking as read and sending never raise.
- The Gemini and OpenRouter SDK calls, with their timeout and the cleaning of code fences, are the `oracle` parameter. A provider without an API key is an oracle that returns empty text.
- `json.loads` and the dict lookups are the `decode` parameter. The model does not cover JSON values that are not strings (or, for `actions`, not a list of objects with string fields), nor a `null` where a string is expected.
- `datetime.now()` is the `now` parameter, taken once per message. The source reads the clock separately for listing and for each suspension.
- Configuration and environment loading, and the seeding of the whitelist and models from environment variables in the bot's constructor, are not modelled.
- The prompt's literal text is not modelled. `Prompt` keeps what the prompt is built from: the active module and submodule, the last five history entries and the new message.
- SQLite errors are not modelled. The exception handler around the whole message therefore never fires in the model, and exceptions raised inside a handler are not modelled either.
- Concurrent messages from the same sender, and their races on the session row, are not modelled.
- Store.DatabaseManager.constructor: starts from empty tables. The source opens a database file whose tables may already hold rows; the model covers that through the other methods, which work from any uniquely keyed state.
- Whitelist.Added: appends the new number at the end. `get_whitelist` has no ORDER BY, so the database leaves the listing order open. The model fixes insertion order, and the exact listing texts of `Handlers.SettingsReply` and `Handlers.ReadTwoEntries` are stated for that order.
- Common.Lower: lower-cases ASCII letters only; Python's `str.lower` also folds other letters.
- ModelRegistry.SortByErrors: among models with equal error counters the model keeps table order. SQL gives no order there, so the lemmas claim only sortedness, membership and distinctness.
- ModelRegistry.AvailableModelsSorted: requires a uniquely keyed table, which the primary key guarantees.
- Two behaviours of the source are modelled as written. First, an answer that does not decode gives the apology: nothing more is suspended and no further model is tried. Second, a model that returns empty text without raising is neither suspended nor counted.
