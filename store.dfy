/** The database layer as objects: `DatabaseManager` owns the three tables
    (whitelist, models, sessions) and updates them in place, `Session` is the
    mutable record the bot works on while handling one message, and
    `SessionManager` trims a session's history before saving it. Each method
    is specified by the table functions of ModelRegistry, Whitelist and
    Sessions. */
module Store {
  import opened Common
  import opened ModelRegistry
  import opened Whitelist
  import opened Sessions

  /** A sender's session while one message is handled. */
  class Session {
    const phoneNumber: string
    var activeModule: string
    var activeSubmodule: string
    var history: seq<Message>

    constructor (phoneNumber: string, row: SessionRow)
      ensures this.phoneNumber == phoneNumber && Row() == row
    {
      this.phoneNumber := phoneNumber;
      activeModule := row.activeModule;
      activeSubmodule := row.activeSubmodule;
      history := row.history;
    }

    /** The row this session is stored as. */
    function Row(): SessionRow
      reads this
    {
      SessionRow(activeModule, activeSubmodule, history)
    }
  }

  class DatabaseManager {
    var whitelist: seq<string>
    var models: seq<ModelRow>
    var sessions: map<string, SessionRow>

    /** The primary keys of the whitelist and models tables. */
    ghost predicate Valid()
      reads this
    {
      NoDuplicates(whitelist) && KeysUnique(models)
    }

    constructor ()
      ensures Valid()
      ensures whitelist == [] && models == [] && sessions == map[]
    {
      whitelist := [];
      models := [];
      sessions := map[];
    }

    /** `get_session`: a new session object holding the stored row, or the
        defaults ("Base", "Main", empty history) for an unknown sender. */
    method GetSession(phoneNumber: string) returns (s: Session)
      ensures fresh(s)
      ensures s.phoneNumber == phoneNumber && s.Row() == Load(sessions, phoneNumber)
      ensures phoneNumber !in sessions ==> s.Row() == SessionRow("Base", "Main", [])
    {
      if phoneNumber in sessions {
        s := new Session(phoneNumber, sessions[phoneNumber]);
      } else {
        s := new Session(phoneNumber, DefaultRow);
      }
    }

    /** `save_session`: upsert the session's row under its phone number. */
    method SaveSession(s: Session)
      modifies this
      ensures sessions == old(sessions)[s.phoneNumber := s.Row()]
      ensures whitelist == old(whitelist) && models == old(models)
    {
      sessions := sessions[s.phoneNumber := s.Row()];
    }

    /** `get_available_models(processor)` at time `now`. */
    method GetAvailableModels(processor: string, now: int) returns (names: seq<string>)
      requires Valid()
      ensures names == AvailableModels(models, processor, now)
      ensures NoDuplicates(names)
      ensures forall n :: n in names ==> exists i :: 0 <= i < |models| && HasKey(models[i], processor, n) && IsAvailable(models[i], now)
    {
      names := AvailableModels(models, processor, now);
      AvailableModelsDistinct(models, processor, now);
      forall n | n in names
        ensures exists i :: 0 <= i < |models| && HasKey(models[i], processor, n) && IsAvailable(models[i], now)
      {
        AvailableModelsMembers(models, processor, now, n);
      }
    }

    /** `suspend_model`: the failure upsert at time `now`. */
    method SuspendModel(processor: string, name: string, error: string, now: int)
      requires Valid()
      modifies this
      ensures Valid()
      ensures models == Suspend(old(models), processor, name, error, now)
      ensures whitelist == old(whitelist) && sessions == old(sessions)
    {
      SuspendKeysUnique(models, processor, name, error, now);
      models := Suspend(models, processor, name, error, now);
    }

    /** `add_model`: register the model unless it is already there. */
    method AddModel(processor: string, name: string)
      requires Valid()
      modifies this
      ensures Valid()
      ensures models == Register(old(models), processor, name)
      ensures whitelist == old(whitelist) && sessions == old(sessions)
    {
      RegisterKeysUnique(models, processor, name);
      models := Register(models, processor, name);
    }

    /** `is_whitelisted`. */
    method IsWhitelisted(phoneNumber: string) returns (b: bool)
      ensures b <==> phoneNumber in whitelist
    {
      b := phoneNumber in whitelist;
    }

    /** `get_whitelist`: every number, in store order. */
    method GetWhitelist() returns (numbers: seq<string>)
      ensures numbers == whitelist
    {
      numbers := whitelist;
    }

    /** `add_to_whitelist`. */
    method AddToWhitelist(phoneNumber: string)
      requires Valid()
      modifies this
      ensures Valid()
      ensures whitelist == Added(old(whitelist), phoneNumber)
      ensures models == old(models) && sessions == old(sessions)
    {
      whitelist := Added(whitelist, phoneNumber);
    }

    /** `remove_from_whitelist`. */
    method RemoveFromWhitelist(phoneNumber: string)
      requires Valid()
      modifies this
      ensures Valid()
      ensures whitelist == Removed(old(whitelist), phoneNumber)
      ensures models == old(models) && sessions == old(sessions)
    {
      whitelist := Removed(whitelist, phoneNumber);
    }
  }

  class SessionManager {
    const db: DatabaseManager

    constructor (db: DatabaseManager)
      ensures this.db == db
    {
      this.db := db;
    }

    /** Delegates to the database. */
    method GetSession(phoneNumber: string) returns (s: Session)
      ensures fresh(s)
      ensures s.phoneNumber == phoneNumber && s.Row() == Load(db.sessions, phoneNumber)
    {
      s := db.GetSession(phoneNumber);
    }

    /** Trims the history to its last 20 entries (in the session object too)
        and saves the session. */
    method SaveSession(s: Session)
      modifies s, db
      ensures s.history == Truncated(old(s.history))
      ensures s.activeModule == old(s.activeModule) && s.activeSubmodule == old(s.activeSubmodule)
      ensures db.sessions == old(db.sessions)[s.phoneNumber := s.Row()]
      ensures db.whitelist == old(db.whitelist) && db.models == old(db.models)
    {
      if |s.history| > MaxHistory {
        s.history := s.history[|s.history| - MaxHistory..];
      }
      db.SaveSession(s);
    }
  }
}
