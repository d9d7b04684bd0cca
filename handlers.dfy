/** The module handlers as functions of the whitelist: what a handler call does
    to the whitelist and what reply text it returns, for the "Base" handler
    (which acts only in its "Settings" submodule) and the "Meal" handler
    (which passes the AI reply through), and the effect of calling a handler
    once per action in order. */
module Handlers {
  import opened Common
  import opened Whitelist
  import opened Classifier

  /** The two entries of the handler table. */
  datatype Handler = BaseModule | MealModule

  /** Handler lookup by module name, falling back to "Base" for unknown names. */
  function HandlerFor(moduleName: string): (h: Handler)
    ensures h == MealModule <==> moduleName == "Meal"
    ensures moduleName !in KnownModules ==> h == BaseModule
  {
    if moduleName == "Meal" then MealModule else BaseModule
  }

  const SettingsSubmodule := "Settings"
  const ReadIntent := "Read whitelist"
  const EmptyNotice := "\n\n*The whitelist is currently empty.*"
  const ListHeader := "\n\n*Current Whitelist:*\n"

  /** Python truthiness of an optional string value. */
  predicate Truthy(v: Option<string>) {
    v.Some? && v.value != ""
  }

  /** `action.get("type", "").lower()`. */
  function KindOf(a: Action): string {
    Lower(a.kind.GetOr(""))
  }

  predicate IsAddKind(kind: string) {
    kind == "add_whitelist" || kind == "create_whitelist"
  }

  predicate IsRemoveKind(kind: string) {
    kind == "remove_whitelist" || kind == "delete_whitelist"
  }

  /** The call adds `n` to the whitelist. */
  predicate Adds(submodule: string, action: Option<Action>, n: string) {
    && submodule == SettingsSubmodule && action.Some?
    && IsAddKind(KindOf(action.value)) && Truthy(action.value.value) && action.value.value.value == n
  }

  /** The call removes `n` from the whitelist. */
  predicate Removes(submodule: string, action: Option<Action>, n: string) {
    && submodule == SettingsSubmodule && action.Some?
    && !IsAddKind(KindOf(action.value))
    && IsRemoveKind(KindOf(action.value)) && Truthy(action.value.value) && action.value.value.value == n
  }

  /** What one call of the "Base" handler does to the whitelist. */
  function SettingsEffect(wl: seq<string>, submodule: string, action: Option<Action>): (r: seq<string>)
    ensures forall x :: x in r <==> Adds(submodule, action, x) || (x in wl && !Removes(submodule, action, x))
    ensures NoDuplicates(wl) ==> NoDuplicates(r)
    ensures submodule != SettingsSubmodule || action.None? ==> r == wl
  {
    if submodule == SettingsSubmodule && action.Some? then
      var kind := KindOf(action.value);
      var value := action.value.value;
      if IsAddKind(kind) && Truthy(value) then Added(wl, value.value)
      else if IsRemoveKind(kind) && Truthy(value) then Removed(wl, value.value)
      else wl
    else wl
  }

  /** The read check: the intent is "Read whitelist" or contains "read" in any case. */
  predicate IsReadIntent(intent: string)
    ensures IsReadIntent(intent) <==> Contains(Lower(intent), "read")
  {
    assert Lower(ReadIntent)[..4] == "read";
    intent == ReadIntent || Contains(Lower(intent), "read")
  }

  /** The first disjunct of the read check is subsumed by the second: an
      intent asks for the list exactly when "read" occurs in it, in any case. */
  lemma ReadIntentIsSubstring(intent: string)
    ensures IsReadIntent(intent) <==> exists i :: OccursAt(Lower(intent), "read", i)
  {
    ContainsMeansOccurs(Lower(intent), "read");
    if intent == ReadIntent {
      assert Lower(intent)[0..4] == "read";
      assert OccursAt(Lower(intent), "read", 0);
    }
  }

  /** `"\n".join(f"- {n}" for n in wl)`. */
  function Bullets(wl: seq<string>): (r: string)
    requires wl != []
    ensures |r| >= 2 + |wl[0]| && r[..2 + |wl[0]|] == "- " + wl[0]
    ensures |wl| == 1 ==> r == "- " + wl[0]
  {
    "- " + wl[0] + (if |wl| == 1 then "" else "\n" + Bullets(wl[1..]))
  }

  /** Each new entry of the list adds exactly one line at the end of the listing. */
  lemma {:induction false} BulletsAppend(wl: seq<string>, n: string)
    requires wl != []
    ensures Bullets(wl + [n]) == Bullets(wl) + "\n- " + n
  {
    assert (wl + [n])[0] == wl[0];
    if |wl| == 1 {
      assert (wl + [n])[1..] == [n];
    } else {
      assert (wl + [n])[1..] == wl[1..] + [n];
      BulletsAppend(wl[1..], n);
    }
  }

  /** The reply of one call of the "Base" handler, given the whitelist after the
      call's action. */
  function SettingsReply(wl: seq<string>, submodule: string, intent: string, aiReply: string): (r: string)
    ensures |r| >= |aiReply| && r[..|aiReply|] == aiReply
    ensures !(submodule == SettingsSubmodule && IsReadIntent(intent)) ==> r == aiReply
    ensures submodule == SettingsSubmodule && IsReadIntent(intent) && wl == [] ==> r == aiReply + EmptyNotice
    ensures submodule == SettingsSubmodule && IsReadIntent(intent) && wl != [] ==> r == aiReply + ListHeader + Bullets(wl)
  {
    if submodule == SettingsSubmodule && IsReadIntent(intent) then
      if wl == [] then aiReply + EmptyNotice
      else aiReply + ListHeader + Bullets(wl)
    else aiReply
  }

  /** What one handler call does to the whitelist. */
  function HandleEffect(h: Handler, wl: seq<string>, submodule: string, action: Option<Action>): seq<string> {
    match h
    case BaseModule => SettingsEffect(wl, submodule, action)
    case MealModule => wl
  }

  /** The reply text of one handler call. */
  function HandleReply(h: Handler, wl: seq<string>, submodule: string, intent: string, aiReply: string): string {
    match h
    case BaseModule => SettingsReply(wl, submodule, intent, aiReply)
    case MealModule => aiReply
  }

  /** The whitelist after calling the handler once per action, in order. */
  function RouteEffect(h: Handler, wl: seq<string>, submodule: string, actions: seq<Action>): (r: seq<string>)
    ensures forall x :: x in r && x !in wl ==> exists i :: 0 <= i < |actions| && actions[i].value == Some(x)
  {
    if actions == [] then wl
    else HandleEffect(h, RouteEffect(h, wl, submodule, actions[..|actions| - 1]), submodule, Some(actions[|actions| - 1]))
  }

  /** Routing keeps the whitelist free of duplicates. */
  lemma {:induction false} RouteKeepsNoDuplicates(h: Handler, wl: seq<string>, submodule: string, actions: seq<Action>)
    requires NoDuplicates(wl)
    ensures NoDuplicates(RouteEffect(h, wl, submodule, actions))
  {
    if actions != [] {
      RouteKeepsNoDuplicates(h, wl, submodule, actions[..|actions| - 1]);
    }
  }

  /** Only the "Base" handler in its "Settings" submodule touches the whitelist. */
  lemma {:induction false} RouteOutsideSettings(h: Handler, wl: seq<string>, submodule: string, actions: seq<Action>)
    requires h == MealModule || submodule != SettingsSubmodule
    ensures RouteEffect(h, wl, submodule, actions) == wl
  {
    if actions != [] {
      RouteOutsideSettings(h, wl, submodule, actions[..|actions| - 1]);
    }
  }

  /** One more action: the handler runs once more, on the whitelist the
      earlier actions left. */
  lemma RouteStep(h: Handler, wl: seq<string>, submodule: string, actions: seq<Action>, a: Action)
    ensures RouteEffect(h, wl, submodule, actions + [a])
            == HandleEffect(h, RouteEffect(h, wl, submodule, actions), submodule, Some(a))
  {
    assert (actions + [a])[..|actions|] == actions;
  }

  /** The action types used below are already in lower case. */
  lemma LowerKinds()
    ensures Lower("remove_whitelist") == "remove_whitelist"
    ensures Lower("add_whitelist") == "add_whitelist"
  {
  }

  /** Two actions in one message, a removal then an add: both take effect, in order. */
  lemma RemoveThenAdd(wl: seq<string>, a: string, c: string)
    requires a != "" && c != ""
    ensures RouteEffect(BaseModule, wl, SettingsSubmodule,
                        [Action(Some("remove_whitelist"), Some(a)), Action(Some("add_whitelist"), Some(c))])
            == Added(Removed(wl, a), c)
  {
    var remove, add := Action(Some("remove_whitelist"), Some(a)), Action(Some("add_whitelist"), Some(c));
    LowerKinds();
    assert KindOf(remove) == "remove_whitelist" && KindOf(add) == "add_whitelist";
    var mid := Removed(wl, a);
    assert SettingsEffect(wl, SettingsSubmodule, Some(remove)) == mid;
    assert SettingsEffect(mid, SettingsSubmodule, Some(add)) == Added(mid, c);
    RouteStep(BaseModule, wl, SettingsSubmodule, [], remove);
    assert [] + [remove] == [remove];
    RouteStep(BaseModule, wl, SettingsSubmodule, [remove], add);
    assert [remove] + [add] == [remove, add];
  }

  /** Listing a two-entry whitelist in answer to "Read whitelist". */
  lemma ReadTwoEntries(aiReply: string, a: string, b: string)
    ensures SettingsReply([a, b], SettingsSubmodule, ReadIntent, aiReply)
            == aiReply + "\n\n*Current Whitelist:*\n- " + a + "\n- " + b
  {
    assert [a, b][1..] == [b];
    assert Bullets([b]) == "- " + b;
    assert Bullets([a, b]) == "- " + a + "\n" + "- " + b;
    assert ListHeader + "- " == "\n\n*Current Whitelist:*\n- ";
    assert "\n" + "- " == "\n- ";
  }

  /** An "add" or "create" action adds its value whatever the case of its type. */
  lemma AddKindIgnoresCase(wl: seq<string>, kind: string, n: string)
    requires n != "" && IsAddKind(Lower(kind))
    ensures SettingsEffect(wl, SettingsSubmodule, Some(Action(Some(kind), Some(n)))) == Added(wl, n)
  {
  }

  /** A "remove" or "delete" action removes its value whatever the case of its type. */
  lemma RemoveKindIgnoresCase(wl: seq<string>, kind: string, n: string)
    requires n != "" && IsRemoveKind(Lower(kind))
    ensures SettingsEffect(wl, SettingsSubmodule, Some(Action(Some(kind), Some(n)))) == Removed(wl, n)
  {
  }

}
