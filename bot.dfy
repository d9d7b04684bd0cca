/** The bot's message pipeline: classify an inbound message by trying the
    available models in order (suspending each one that fails), route the
    classification to a module handler once per action, compose the reply
    and record both turns in the sender's session. */
module Bot {
  import opened Common
  import opened ModelRegistry
  import opened Whitelist
  import opened Sessions
  import opened Classifier
  import opened Handlers
  import opened Store

  /** An inbound message; each field is None when its key is missing. A
      missing direction counts as "inbound", a missing body as "". */
  datatype Inbound = Inbound(sender: Option<string>, body: Option<string>, direction: Option<string>)

  /** The message is handled at all: it is not an echo of an outbound message
      and its sender is whitelisted. */
  predicate Accepted(msg: Inbound, whitelist: seq<string>)
    ensures msg.direction == Some("outbound") ==> !Accepted(msg, whitelist)
    ensures msg.sender.None? ==> !Accepted(msg, whitelist)
    ensures Accepted(msg, whitelist) ==> msg.sender.value in whitelist
    ensures msg.direction != Some("outbound") && msg.sender.Some? && msg.sender.value in whitelist
            ==> Accepted(msg, whitelist)
  {
    && msg.direction.GetOr("inbound") != "outbound"
    && msg.sender.Some? && msg.sender.value in whitelist
  }

  /** The text sent back: a header naming module, intent and model, then the
      handler's reply. */
  function Compose(moduleName: string, intent: string, model: string, reply: string): (r: string)
    ensures |r| >= |reply| && r[|r| - |reply|..] == reply
    ensures |r| >= 9 + |moduleName| && r[..9 + |moduleName|] == "Module: " + moduleName + "\n"
    ensures var a := 9 + |moduleName|;
            var b := a + 9 + |intent|;
            && |r| == b + 9 + |model| + |reply|
            && r[a..b] == "Intent: " + intent + "\n"
            && r[b..b + 8 + |model|] == "Model: " + model + "\n"
            && r[b + 8 + |model|] == '\n'
  {
    "Module: " + moduleName + "\n" + "Intent: " + intent + "\n" + "Model: " + model + "\n\n" + reply
  }

  /** The handler's reply can be read back from the text sent: two texts with
      the same header are equal only for the same reply. */
  lemma ComposeKeepsReply(moduleName: string, intent: string, model: string, reply1: string, reply2: string)
    requires Compose(moduleName, intent, model, reply1) == Compose(moduleName, intent, model, reply2)
    ensures reply1 == reply2
  {
    var r := Compose(moduleName, intent, model, reply1);
    assert |reply1| == |reply2|;
    assert reply1 == r[|r| - |reply1|..] == reply2;
  }

  /** A loaded session with the user turn appended and the history trimmed. */
  function UserTurn(loaded: SessionRow, body: string): (r: SessionRow)
    ensures r.activeModule == loaded.activeModule && r.activeSubmodule == loaded.activeSubmodule
    ensures 1 <= |r.history| <= MaxHistory && |r.history| <= |loaded.history| + 1
    ensures |r.history| == if |loaded.history| < MaxHistory then |loaded.history| + 1 else MaxHistory
    ensures r.history[|r.history| - 1] == Message(User, body)
    ensures r.history[..|r.history| - 1] == loaded.history[|loaded.history| + 1 - |r.history|..]
  {
    SessionRow(loaded.activeModule, loaded.activeSubmodule, Truncated(loaded.history + [Message(User, body)]))
  }

  class WhatsAppBot {
    const db: DatabaseManager
    const sessionManager: SessionManager
    /** The configured provider whose models are tried. */
    const aiProcessor: string
    /** Whether the messaging transport has its API key. */
    const transportConfigured: bool

    ghost predicate Valid()
      reads db
    {
      sessionManager.db == db && db.Valid()
    }

    constructor (aiProcessor: string, transportConfigured: bool)
      ensures Valid() && fresh(db)
      ensures this.aiProcessor == aiProcessor && this.transportConfigured == transportConfigured
      ensures db.whitelist == [] && db.models == [] && db.sessions == map[]
    {
      var d := new DatabaseManager();
      db := d;
      sessionManager := new SessionManager(d);
      this.aiProcessor := aiProcessor;
      this.transportConfigured := transportConfigured;
    }

    /** `analyze_intent`: an empty message gets the greeting without asking
        any model; otherwise the models available at `now` are asked in list
        order and the first non-empty text is decoded; no model, no answer or
        an undecodable answer gives the apology. */
    method AnalyzeIntent(text: string, session: Session, now: int,
                         oracle: (string, Prompt) -> Reply, decode: string -> Option<Decoded>)
      returns (c: Classification)
      requires Valid()
      modifies db
      ensures Valid()
      ensures var prompt := PromptFor(session.activeModule, session.activeSubmodule, session.history, text);
              var available := AvailableModels(old(db.models), aiProcessor, now);
              && c == Classify(text, session.activeModule, available, oracle, prompt, decode)
              && db.models == SuspendAll(old(db.models), aiProcessor, Suspensions(text, available, oracle, prompt), now)
      ensures db.whitelist == old(db.whitelist) && db.sessions == old(db.sessions)
    {
      if text == "" {
        return Greeting(session.activeModule);
      }
      var prompt := PromptFor(session.activeModule, session.activeSubmodule, session.history, text);
      var available := db.GetAvailableModels(aiProcessor, now);
      if available == [] {
        return Apology(session.activeModule);
      }
      var k, cleanText := AskInOrder(available, prompt, now, oracle);
      if k.None? {
        return Apology(session.activeModule);
      }
      match decode(cleanText) {
        case None =>
          c := Apology(session.activeModule);
        case Some(d) =>
          c := Normalize(d, session.activeModule, available[k.value]);
      }
    }

    /** The fallback loop of `analyze_intent`: each model, in list order, is
        asked with the prompt; one that raises is suspended and the next one
        is asked; the first non-empty text ends the loop. */
    method AskInOrder(available: seq<string>, prompt: Prompt, now: int, oracle: (string, Prompt) -> Reply)
      returns (k: Option<nat>, cleanText: string)
      requires Valid()
      modifies db
      ensures Valid()
      ensures k == FirstAnswer(available, oracle, prompt)
      ensures k.Some? ==> k.value < |available| && cleanText == oracle(available[k.value], prompt).body
      ensures db.models == SuspendAll(old(db.models), aiProcessor, Failures(Tried(available, oracle, prompt), oracle, prompt), now)
      ensures db.whitelist == old(db.whitelist) && db.sessions == old(db.sessions)
    {
      var i;
      i, cleanText := AskUntilAnswer(available, prompt, now, oracle);
      if cleanText == "" {
        Exhausted(available, oracle, prompt);
        k := None;
      } else {
        StopsAt(available, i, oracle, prompt);
        k := Some(i);
      }
    }

    /** The loop itself: it stops at position `i` with the text found there,
        or at the end of the list with no text, having suspended every model
        before `i` that raised. */
    method AskUntilAnswer(available: seq<string>, prompt: Prompt, now: int, oracle: (string, Prompt) -> Reply)
      returns (i: nat, cleanText: string)
      requires Valid()
      modifies db
      ensures Valid()
      ensures i <= |available|
      ensures forall j :: 0 <= j < i ==> !Answered(oracle(available[j], prompt))
      ensures cleanText == "" ==> i == |available|
      ensures cleanText != "" ==> i < |available| && Answered(oracle(available[i], prompt))
                                  && cleanText == oracle(available[i], prompt).body
      ensures db.models == SuspendAll(old(db.models), aiProcessor, Failures(available[..i], oracle, prompt), now)
      ensures db.whitelist == old(db.whitelist) && db.sessions == old(db.sessions)
    {
      cleanText := "";
      i := 0;
      while i < |available|
        invariant 0 <= i <= |available|
        invariant Valid()
        invariant cleanText == ""
        invariant forall j :: 0 <= j < i ==> !Answered(oracle(available[j], prompt))
        invariant db.models == SuspendAll(old(db.models), aiProcessor, Failures(available[..i], oracle, prompt), now)
        invariant db.whitelist == old(db.whitelist) && db.sessions == old(db.sessions)
      {
        var model := available[i];
        SuspendAllAsked(old(db.models), aiProcessor, available, i, oracle, prompt, now);
        var answer := oracle(model, prompt);
        if answer.Fail? {
          db.SuspendModel(aiProcessor, model, answer.error, now);
        } else {
          cleanText := answer.body;
          if cleanText != "" {
            return;
          }
        }
        i := i + 1;
      }
    }

    /** `BaseModule.handle` and `MealModule.handle`: one handler call with at
        most one action. */
    method Handle(h: Handler, submodule: string, intent: string, aiReply: string, action: Option<Action>)
      returns (reply: string)
      requires Valid()
      modifies db
      ensures Valid()
      ensures db.whitelist == HandleEffect(h, old(db.whitelist), submodule, action)
      ensures reply == HandleReply(h, db.whitelist, submodule, intent, aiReply)
      ensures db.models == old(db.models) && db.sessions == old(db.sessions)
    {
      if h == MealModule {
        return aiReply;
      }
      if submodule == SettingsSubmodule {
        if action.Some? {
          var kind := KindOf(action.value);
          var value := action.value.value;
          if IsAddKind(kind) && Truthy(value) {
            db.AddToWhitelist(value.value);
          } else if IsRemoveKind(kind) && Truthy(value) {
            db.RemoveFromWhitelist(value.value);
          }
        }
        if IsReadIntent(intent) {
          var current := db.GetWhitelist();
          if current == [] {
            return aiReply + EmptyNotice;
          }
          return aiReply + ListHeader + Bullets(current);
        }
      }
      reply := aiReply;
    }

    /** The routing step of `handle_message`: with no actions the handler is
        called once without one; otherwise once per action, in order, and only
        the last reply is kept. */
    method Dispatch(h: Handler, submodule: string, intent: string, aiReply: string, actions: seq<Action>)
      returns (reply: string)
      requires Valid()
      modifies db
      ensures Valid()
      ensures db.whitelist == RouteEffect(h, old(db.whitelist), submodule, actions)
      ensures reply == HandleReply(h, db.whitelist, submodule, intent, aiReply)
      ensures db.models == old(db.models) && db.sessions == old(db.sessions)
    {
      if actions == [] {
        reply := Handle(h, submodule, intent, aiReply, None);
        return;
      }
      reply := "";
      var i := 0;
      while i < |actions|
        invariant 0 <= i <= |actions|
        invariant Valid()
        invariant db.whitelist == RouteEffect(h, old(db.whitelist), submodule, actions[..i])
        invariant i > 0 ==> reply == HandleReply(h, db.whitelist, submodule, intent, aiReply)
        invariant db.models == old(db.models) && db.sessions == old(db.sessions)
      {
        assert actions[..i + 1][..i] == actions[..i];
        reply := Handle(h, submodule, intent, aiReply, Some(actions[i]));
        i := i + 1;
      }
      assert actions[..i] == actions;
    }

    /** `handle_message` for one inbound message: an outbound echo, a message
        from a sender not on the whitelist, or any message while the transport
        has no API key is dropped without a trace; any other is handled by
        `Converse` and its reply is returned for sending. */
    method HandleMessage(msg: Inbound, now: int,
                         oracle: (string, Prompt) -> Reply, decode: string -> Option<Decoded>)
      returns (sent: Option<string>)
      requires Valid()
      modifies db
      ensures Valid()
      ensures !(Accepted(msg, old(db.whitelist)) && transportConfigured) ==>
                && sent == None
                && db.whitelist == old(db.whitelist) && db.models == old(db.models) && db.sessions == old(db.sessions)
      ensures Accepted(msg, old(db.whitelist)) && transportConfigured ==>
                && sent.Some?
                && Conversed(old(db.whitelist), old(db.models), old(db.sessions), msg.sender.value, msg.body.GetOr(""), now,
                             oracle, decode, db.whitelist, db.models, db.sessions, sent.value)
    {
      if msg.direction.GetOr("inbound") == "outbound" {
        return None;
      }
      if msg.sender.None? {
        return None;
      }
      var phone := msg.sender.value;
      var allowed := db.IsWhitelisted(phone);
      if !allowed {
        return None;
      }
      if !transportConfigured {
        return None;
      }
      var text := Converse(phone, msg.body.GetOr(""), now, oracle, decode);
      sent := Some(text);
    }

    /** The whole effect of handling an accepted message from `phone` on the
        three tables, and the text sent back: the sender's row is the only
        one of the sessions table that changes, and it is the one `Responded`
        describes for the loaded session with the user turn appended. */
    ghost predicate Conversed(wl0: seq<string>, rows0: seq<ModelRow>, table0: map<string, SessionRow>,
                              phone: string, body: string, now: int,
                              oracle: (string, Prompt) -> Reply, decode: string -> Option<Decoded>,
                              wl1: seq<string>, rows1: seq<ModelRow>, table1: map<string, SessionRow>, text: string)
    {
      && phone in table1
      && table1 == table0[phone := table1[phone]]
      && Responded(wl0, rows0, UserTurn(Load(table0, phone), body), body, now, oracle, decode,
                   wl1, rows1, table1[phone], text)
    }

    /** The effect of classifying and answering `body` for a sender whose
        session (user turn included) is `row`: the whitelist after the routed
        actions, the composed reply, the models table after the suspensions
        and the sender's new row. */
    ghost predicate Responded(wl0: seq<string>, rows0: seq<ModelRow>, row: SessionRow,
                              body: string, now: int,
                              oracle: (string, Prompt) -> Reply, decode: string -> Option<Decoded>,
                              wl1: seq<string>, rows1: seq<ModelRow>, row1: SessionRow, text: string)
    {
      var prompt := PromptFor(row.activeModule, row.activeSubmodule, row.history, body);
      var available := AvailableModels(rows0, aiProcessor, now);
      var c := Classify(body, row.activeModule, available, oracle, prompt, decode);
      var h := HandlerFor(c.moduleName);
      && wl1 == RouteEffect(h, wl0, c.submodule, c.actions)
      && text == Compose(c.moduleName, c.intent, c.model, HandleReply(h, wl1, c.submodule, c.intent, c.reply))
      && rows1 == SuspendAll(rows0, aiProcessor, Suspensions(body, available, oracle, prompt), now)
      && row1 == SessionRow(c.moduleName, c.submodule, Truncated(row.history + [Message(Assistant, text)]))
    }

    /** The body of `handle_message` for an accepted message: record the user
        turn, then classify and answer. */
    method Converse(phone: string, body: string, now: int,
                    oracle: (string, Prompt) -> Reply, decode: string -> Option<Decoded>)
      returns (text: string)
      requires Valid()
      modifies db
      ensures Valid()
      ensures Conversed(old(db.whitelist), old(db.models), old(db.sessions), phone, body, now,
                        oracle, decode, db.whitelist, db.models, db.sessions, text)
    {
      ghost var table0 := db.sessions;
      var session := RecordUserTurn(phone, body);
      ghost var row := session.Row();
      text := Respond(session, body, now, oracle, decode);
      SaveTwice(table0, phone, row, session.Row());
    }

    /** Classify `body` with the session as it stands, then answer. */
    method Respond(session: Session, body: string, now: int,
                   oracle: (string, Prompt) -> Reply, decode: string -> Option<Decoded>)
      returns (text: string)
      requires Valid()
      modifies db, session
      ensures Valid()
      ensures db.sessions == old(db.sessions)[session.phoneNumber := session.Row()]
      ensures Responded(old(db.whitelist), old(db.models), old(session.Row()), body, now, oracle, decode,
                        db.whitelist, db.models, session.Row(), text)
    {
      var c := AnalyzeIntent(body, session, now, oracle, decode);
      text := Answer(session, c);
    }

    /** Load the sender's session, append the user turn and save it (trimming
        the history to its last 20 entries). */
    method RecordUserTurn(phone: string, body: string) returns (session: Session)
      requires Valid()
      modifies db
      ensures Valid() && fresh(session)
      ensures session.phoneNumber == phone && session.Row() == UserTurn(Load(old(db.sessions), phone), body)
      ensures db.sessions == old(db.sessions)[phone := session.Row()]
      ensures db.whitelist == old(db.whitelist) && db.models == old(db.models)
    {
      session := sessionManager.GetSession(phone);
      session.history := session.history + [Message(User, body)];
      sessionManager.SaveSession(session);
    }

    /** Move the session to the classified module and submodule, route the
        classification to that module's handler, compose the reply, append it
        as the assistant turn and save the session again. */
    method Answer(session: Session, c: Classification) returns (text: string)
      requires Valid()
      modifies db, session
      ensures Valid()
      ensures var h := HandlerFor(c.moduleName);
              && db.whitelist == RouteEffect(h, old(db.whitelist), c.submodule, c.actions)
              && text == Compose(c.moduleName, c.intent, c.model, HandleReply(h, db.whitelist, c.submodule, c.intent, c.reply))
              && session.Row() == SessionRow(c.moduleName, c.submodule, Truncated(old(session.history) + [Message(Assistant, text)]))
              && db.sessions == old(db.sessions)[session.phoneNumber := session.Row()]
      ensures db.models == old(db.models)
    {
      session.activeModule := c.moduleName;
      session.activeSubmodule := c.submodule;
      var h := HandlerFor(session.activeModule);
      var reply := Dispatch(h, c.submodule, c.intent, c.reply, c.actions);
      text := Compose(session.activeModule, c.intent, c.model, reply);
      session.history := session.history + [Message(Assistant, text)];
      sessionManager.SaveSession(session);
    }
  }
}
