// The two preference stores: the display settings record, and the
// application state that nests the same settings next to the menu state.
// Both are JSON-like records whose updates replace one key with a spread.

module Settings {

  /** A JSON value as kept in the stores. */
  datatype Json = Bool(b: bool) | Number(n: int) | Text(s: string) | Record(fields: map<string, Json>)

  /** `{...m[key]}`: the fields of a record entry; spreading a missing or
      non-record entry contributes nothing. */
  function FieldsAt(m: map<string, Json>, key: string): (r: map<string, Json>)
    ensures key in m && m[key].Record? ==> r == m[key].fields
    ensures !(key in m && m[key].Record?) ==> r == map[]
  {
    if key in m && m[key].Record? then m[key].fields else map[]
  }

  /** `{...m, [key]: value}`. */
  function Set(m: map<string, Json>, key: string, value: Json): (r: map<string, Json>)
    ensures key in r && r[key] == value
    ensures r.Keys == m.Keys + {key}
    ensures forall k :: k in m && k != key ==> r[k] == m[k]
  {
    m[key := value]
  }

  // ---------------------------------------------------------------------------
  // The settings store
  // ---------------------------------------------------------------------------

  /** The initial `show` flags. */
  const DefaultShow: map<string, Json> :=
    map["code" := Bool(false), "time" := Bool(true), "type" := Bool(false),
        "instructor" := Bool(true), "location" := Bool(true), "notes" := Bool(false)]

  /** The initial settings record. */
  const DefaultSettings: map<string, Json> :=
    map["show" := Record(DefaultShow), "saturday" := Bool(false), "slot" := Number(20)]

  /** `updateSettings(type, event, value)` as a function of the previous settings. */
  function SettingsUpdate(settings: map<string, Json>, kind: string, event: string, value: Json): map<string, Json>
  {
    if kind == "show" then Set(settings, "show", Record(Set(FieldsAt(settings, "show"), event, value)))
    else Set(settings, event, value)
  }

  class SettingsStore {
    var settings: map<string, Json>

    constructor()
      ensures settings == DefaultSettings
    {
      settings := DefaultSettings;
    }

    method UpdateSettings(kind: string, event: string, value: Json)
      modifies this
      ensures settings == SettingsUpdate(old(settings), kind, event, value)
    {
      if kind == "show" {
        var show := FieldsAt(settings, "show");
        settings := settings["show" := Record(show[event := value])];
      } else {
        settings := settings[event := value];
      }
    }
  }

  /** A `show` update sets that one flag: the other flags and every other
      setting keep their values. */
  lemma ShowUpdateTouchesOneFlag(settings: map<string, Json>, event: string, value: Json)
    ensures var r := SettingsUpdate(settings, "show", event, value);
      && r.Keys == settings.Keys + {"show"}
      && (forall k :: k in settings && k != "show" ==> r[k] == settings[k])
      && r["show"].Record?
      && event in r["show"].fields && r["show"].fields[event] == value
      && (forall k :: k in FieldsAt(settings, "show") && k != event ==>
            k in r["show"].fields && r["show"].fields[k] == FieldsAt(settings, "show")[k])
      && r["show"].fields.Keys == FieldsAt(settings, "show").Keys + {event}
  {
  }

  /** Any other update sets one top-level setting; unless that setting is
      `show` itself, the flags keep their values. */
  lemma OtherUpdateTouchesOneSetting(settings: map<string, Json>, kind: string, event: string, value: Json)
    requires kind != "show"
    ensures var r := SettingsUpdate(settings, kind, event, value);
      && r.Keys == settings.Keys + {event}
      && r[event] == value
      && (forall k :: k in settings && k != event ==> r[k] == settings[k])
      && (event != "show" ==> FieldsAt(r, "show") == FieldsAt(settings, "show"))
  {
  }

  /** Repeating an update changes nothing more. */
  lemma SettingsUpdateIdempotent(settings: map<string, Json>, kind: string, event: string, value: Json)
    ensures var once := SettingsUpdate(settings, kind, event, value);
      SettingsUpdate(once, kind, event, value) == once
  {
    var once := SettingsUpdate(settings, kind, event, value);
    if kind == "show" {
      var show := FieldsAt(settings, "show");
      assert FieldsAt(once, "show") == show[event := value];
      assert show[event := value][event := value] == show[event := value];
      assert once["show" := Record(show[event := value])] == once;
    } else {
      assert once[event := value] == once;
    }
  }

  // ---------------------------------------------------------------------------
  // The application state store
  // ---------------------------------------------------------------------------

  /** The initial state: the settings (with a `name` flag added) and the
      menu position. */
  const DefaultState: map<string, Json> :=
    map["settings" := Record(map["show" := Record(DefaultShow["name" := Bool(true)]),
                                 "saturday" := Bool(false), "slot" := Number(20)]),
        "currentState" := Record(map["menu" := Text("Hozzáadás"), "settings" := Text("show")])]

  /** `updateState(type, event, value)` as a function of the previous state. */
  function StateUpdate(state: map<string, Json>, kind: string, event: string, value: Json): map<string, Json>
  {
    if kind == "show" then
      var settings := FieldsAt(state, "settings");
      Set(state, "settings", Record(Set(settings, "show", Record(Set(FieldsAt(settings, "show"), event, value)))))
    else if kind == "misc" then
      Set(state, "settings", Record(Set(FieldsAt(state, "settings"), event, value)))
    else if kind == "currentState" then
      Set(state, "currentState", Record(Set(FieldsAt(state, "currentState"), event, value)))
    else state
  }

  class AppState {
    var state: map<string, Json>

    constructor()
      ensures state == DefaultState
    {
      state := DefaultState;
    }

    /** The `settings` alias: the settings part of the state. */
    function Settings(): map<string, Json>
      reads this
    {
      FieldsAt(state, "settings")
    }

    method UpdateState(kind: string, event: string, value: Json)
      modifies this
      ensures state == StateUpdate(old(state), kind, event, value)
    {
      if kind == "show" {
        var settings := FieldsAt(state, "settings");
        var show := FieldsAt(settings, "show");
        state := state["settings" := Record(settings["show" := Record(show[event := value])])];
      } else if kind == "misc" {
        var settings := FieldsAt(state, "settings");
        state := state["settings" := Record(settings[event := value])];
      } else if kind == "currentState" {
        var current := FieldsAt(state, "currentState");
        state := state["currentState" := Record(current[event := value])];
      }
    }

    /** The `updateSettings` alias: the same function as `updateState`. */
    method UpdateSettings(kind: string, event: string, value: Json)
      modifies this
      ensures state == StateUpdate(old(state), kind, event, value)
    {
      UpdateState(kind, event, value);
    }
  }

  /** Through the state store, a `show` or `misc` update changes the nested
      settings exactly as the settings store changes its own record, and
      leaves the menu state alone. */
  lemma StateSettingsAgree(state: map<string, Json>, kind: string, event: string, value: Json)
    requires kind == "show" || kind == "misc"
    ensures var r := StateUpdate(state, kind, event, value);
      && FieldsAt(r, "settings") == SettingsUpdate(FieldsAt(state, "settings"), kind, event, value)
      && FieldsAt(r, "currentState") == FieldsAt(state, "currentState")
      && (forall k :: k in state && k != "settings" ==> k in r && r[k] == state[k])
  {
  }

  /** A `currentState` update changes one menu entry and nothing else. */
  lemma CurrentStateUpdateTouchesOneEntry(state: map<string, Json>, event: string, value: Json)
    ensures var r := StateUpdate(state, "currentState", event, value);
      && FieldsAt(r, "settings") == FieldsAt(state, "settings")
      && FieldsAt(r, "currentState") == FieldsAt(state, "currentState")[event := value]
      && (forall k :: k in state && k != "currentState" ==> k in r && r[k] == state[k])
  {
  }

  /** Unknown update types leave the state unchanged, where the settings
      store would have set a top-level setting. */
  lemma UnknownKindIsNoOp(state: map<string, Json>, kind: string, event: string, value: Json)
    requires kind != "show" && kind != "misc" && kind != "currentState"
    ensures StateUpdate(state, kind, event, value) == state
    ensures SettingsUpdate(FieldsAt(state, "settings"), kind, event, value)[event] == value
  {
  }

  /** Repeating a state update changes nothing more. */
  lemma StateUpdateIdempotent(state: map<string, Json>, kind: string, event: string, value: Json)
    ensures var once := StateUpdate(state, kind, event, value);
      StateUpdate(once, kind, event, value) == once
  {
    var once := StateUpdate(state, kind, event, value);
    if kind == "show" || kind == "misc" {
      var settings := FieldsAt(state, "settings");
      var newSettings := SettingsUpdate(settings, kind, event, value);
      StateSettingsAgree(state, kind, event, value);
      SettingsUpdateIdempotent(settings, kind, event, value);
      StateSettingsAgree(once, kind, event, value);
      assert StateUpdate(once, kind, event, value)["settings"] == once["settings"];
      assert StateUpdate(once, kind, event, value) == once;
    } else if kind == "currentState" {
      var current := FieldsAt(state, "currentState");
      assert FieldsAt(once, "currentState") == current[event := value];
      assert current[event := value][event := value] == current[event := value];
      assert StateUpdate(once, kind, event, value) == once;
    }
  }

  /** The two stores start from the same settings, except for the state
      store's extra `name` flag. */
  lemma DefaultsAgree()
    ensures FieldsAt(DefaultState, "settings")
         == DefaultSettings["show" := Record(DefaultShow["name" := Bool(true)])]
    ensures "name" !in DefaultShow
  {
  }
}
