/**
 * The user's preferences (models/config_model.py): a dictionary of settings read from a
 * JSON file at start-up, completed with defaults, and written back after every change.
 *
 * The file is the field `file`; how a write ends is an input (`Write`).
 */
module Config {
  import opened Wrappers

  /** A JSON value as `json.load` produces it (floating-point numbers are left out). */
  datatype Value =
    | Null
    | Bool(b: bool)
    | Int(i: int)
    | Str(s: string)
    | List(items: seq<Value>)
    | Object(fields: map<string, Value>)

  /** What the configuration file holds when it is read. */
  datatype Document =
    | Missing                               // no file at the path
    | Found(entries: map<string, Value>)    // a JSON object
    | Unreadable                            // cannot be opened or is not valid JSON

  /**
   * How writing the file ends: it succeeds; opening it fails (the file is untouched); or
   * the dump fails after the open has already emptied the file (disk full, an I/O error).
   */
  datatype Write = Written | OpenFails | DumpFails

  /** The file after a write of `settings`: an interrupted dump leaves a file that no longer parses. */
  function AfterWrite(file: Document, settings: map<string, Value>, write: Write): Document
  {
    match write
    case Written => Found(settings)
    case OpenFails => file
    case DumpFails => Unreadable
  }

  /** The built-in settings. */
  function Defaults(): (d: map<string, Value>)
    ensures |d.Keys| == 10
    ensures "theme" in d && d["theme"] == Str("light")
    ensures "language" in d && d["language"] == Str("es")
  {
    map[
      "theme" := Str("light"),
      "language" := Str("es"),
      "last_used_tab" := Int(0),
      "last_used_time_unit" := Str("minutes"),
      "last_used_time_value" := Int(30),
      "last_used_action" := Str("shutdown"),
      "show_notifications" := Bool(true),
      "minimize_to_tray" := Bool(true),
      "start_minimized" := Bool(false),
      "keyboard_shortcuts" := Object(map[
        "cancel" := Str("Ctrl+C"),
        "switch_tab" := Str("Ctrl+Tab"),
        "toggle_theme" := Str("Ctrl+T")])]
  }

  /** The settings of a file completed with the defaults it lacks. */
  function Completed(loaded: map<string, Value>, defaults: map<string, Value>): (r: map<string, Value>)
    ensures loaded.Keys <= r.Keys && defaults.Keys <= r.Keys
    ensures forall k :: k in loaded ==> r[k] == loaded[k]
  {
    map k | k in loaded.Keys + defaults.Keys :: if k in loaded then loaded[k] else defaults[k]
  }

  /** The settings a load ends with, for each state of the file. */
  function LoadedConfig(doc: Document): map<string, Value>
  {
    match doc
    case Found(entries) => Completed(entries, Defaults())
    case Missing => Defaults()
    case Unreadable => Defaults()
  }

  /** The loop of `_load_config`: each default whose key the file lacks is added. */
  method BackfillDefaults(loaded: map<string, Value>, defaults: map<string, Value>) returns (r: map<string, Value>)
    ensures r == Completed(loaded, defaults)
  {
    r := loaded;
    var pending := defaults.Keys;
    while pending != {}
      invariant pending <= defaults.Keys
      invariant r.Keys == loaded.Keys + (defaults.Keys - pending)
      invariant forall k :: k in r ==> r[k] == if k in loaded then loaded[k] else defaults[k]
      decreases pending
    {
      var key :| key in pending;
      if key !in r {
        r := r[key := defaults[key]];
      }
      pending := pending - {key};
    }
  }

  class ConfigModel {
    const defaultConfig: map<string, Value>
    var config: map<string, Value>
    var file: Document

    /** Every built-in key is present. */
    ghost predicate Valid()
      reads this
    {
      defaultConfig == Defaults() && Defaults().Keys <= config.Keys
    }

    /** Loads the settings from `disk`; a missing file is created with the defaults. */
    constructor(disk: Document, write: Write)
      ensures config == LoadedConfig(disk)
      ensures file == if disk.Missing? then AfterWrite(disk, Defaults(), write) else disk
      ensures Valid()
    {
      defaultConfig := Defaults();
      file := disk;
      config := Defaults();
      new;
      config := LoadConfig(write);
      LoadedConfigComplete(disk);
    }

    method LoadConfig(write: Write) returns (loaded: map<string, Value>)
      requires defaultConfig == Defaults()
      modifies this
      ensures loaded == LoadedConfig(old(file))
      ensures file == if old(file).Missing? then AfterWrite(old(file), Defaults(), write) else old(file)
      ensures config == old(config)
    {
      match file {
        case Found(entries) =>
          loaded := BackfillDefaults(entries, defaultConfig);
        case Missing =>
          var _ := SaveConfig(defaultConfig, write);
          loaded := defaultConfig;
        case Unreadable =>
          loaded := defaultConfig;
      }
    }

    /**
     * Writes `settings` to the file. Opening for writing empties the file first, so a dump
     * that fails leaves a file that no longer parses; a failed open leaves it as it was.
     */
    method SaveConfig(settings: map<string, Value>, write: Write) returns (ok: bool)
      modifies this
      ensures ok <==> write == Written
      ensures file == AfterWrite(old(file), settings, write)
      ensures config == old(config)
    {
      if write == OpenFails {
        return false;
      }
      file := Unreadable;
      if write == DumpFails {
        return false;
      }
      file := Found(settings);
      ok := true;
    }

    /** The whole settings (`None`), or one setting falling back to its default, else `null`. */
    function GetConfig(key: Option<string>): (r: Value)
      reads this
      ensures key.None? ==> r == Object(config)
      ensures key.Some? && key.value in config ==> r == config[key.value]
      ensures key.Some? && key.value !in config && key.value in defaultConfig ==> r == defaultConfig[key.value]
      ensures key.Some? && key.value !in config && key.value !in defaultConfig ==> r == Null
    {
      match key
      case None => Object(config)
      case Some(k) =>
        if k in config then config[k]
        else if k in defaultConfig then defaultConfig[k]
        else Null
    }

    /** Stores the setting, kept even when the write fails, and reports the write. */
    method SetConfig(key: string, value: Value, write: Write) returns (ok: bool)
      requires Valid()
      modifies this
      ensures config == old(config)[key := value]
      ensures ok <==> write == Written
      ensures file == AfterWrite(old(file), config, write)
      ensures ok ==> LoadedConfig(file) == config
      ensures Valid()
    {
      config := config[key := value];
      ok := SaveConfig(config, write);
      ReloadRoundTrip(config);
    }

    method ResetConfig(write: Write) returns (ok: bool)
      requires Valid()
      modifies this
      ensures config == Defaults()
      ensures ok <==> write == Written
      ensures file == AfterWrite(old(file), Defaults(), write)
      ensures Valid()
    {
      config := defaultConfig;
      ok := SaveConfig(config, write);
    }

    function GetTheme(): (r: Value)
      reads this
      ensures "theme" in config ==> r == config["theme"]
      ensures "theme" !in config ==> r == Str("light")
    {
      if "theme" in config then config["theme"] else Str("light")
    }

    /** Only `"light"` and `"dark"` are stored; anything else is refused without a change. */
    method SetTheme(theme: string, write: Write) returns (ok: bool)
      requires Valid()
      modifies this
      ensures theme != "light" && theme != "dark" ==> !ok && config == old(config) && file == old(file)
      ensures theme == "light" || theme == "dark" ==>
        && config == old(config)["theme" := Str(theme)]
        && (ok <==> write == Written)
        && file == AfterWrite(old(file), config, write)
      ensures ok ==> GetTheme() == Str(theme) && (theme == "light" || theme == "dark")
      ensures Valid()
    {
      if theme != "light" && theme != "dark" {
        return false;
      }
      ok := SetConfig("theme", Str(theme), write);
    }

    function GetLanguage(): (r: Value)
      reads this
      ensures "language" in config ==> r == config["language"]
      ensures "language" !in config ==> r == Str("es")
    {
      if "language" in config then config["language"] else Str("es")
    }

    /** Only `"es"` and `"en"` are stored; anything else is refused without a change. */
    method SetLanguage(language: string, write: Write) returns (ok: bool)
      requires Valid()
      modifies this
      ensures language != "es" && language != "en" ==> !ok && config == old(config) && file == old(file)
      ensures language == "es" || language == "en" ==>
        && config == old(config)["language" := Str(language)]
        && (ok <==> write == Written)
        && file == AfterWrite(old(file), config, write)
      ensures ok ==> GetLanguage() == Str(language) && (language == "es" || language == "en")
      ensures Valid()
    {
      if language != "es" && language != "en" {
        return false;
      }
      ok := SetConfig("language", Str(language), write);
    }
  }

  // ---------------------------------------------------------------------------
  // Lemmas

  /**
   * Completing keeps every setting the file has, adds exactly the missing defaults, and
   * invents no other key.
   */
  lemma CompletedMeaning(loaded: map<string, Value>, defaults: map<string, Value>)
    ensures Completed(loaded, defaults).Keys == loaded.Keys + defaults.Keys
    ensures forall k :: k in loaded ==> Completed(loaded, defaults)[k] == loaded[k]
    ensures forall k :: k in defaults && k !in loaded ==> Completed(loaded, defaults)[k] == defaults[k]
  {
  }

  /** A file that already has every default is taken as it is. */
  lemma CompleteFileUnchanged(loaded: map<string, Value>, defaults: map<string, Value>)
    requires defaults.Keys <= loaded.Keys
    ensures Completed(loaded, defaults) == loaded
  {
  }

  /** Completing twice adds nothing more. */
  lemma CompletedIdempotent(loaded: map<string, Value>, defaults: map<string, Value>)
    ensures Completed(Completed(loaded, defaults), defaults) == Completed(loaded, defaults)
  {
    CompletedMeaning(loaded, defaults);
    CompleteFileUnchanged(Completed(loaded, defaults), defaults);
  }

  /**
   * Whatever the file holds, the loaded settings have every built-in key; a file's own
   * settings are kept, and without a usable file the settings are the defaults.
   */
  lemma LoadedConfigComplete(doc: Document)
    ensures Defaults().Keys <= LoadedConfig(doc).Keys
    ensures doc.Found? ==> forall k :: k in doc.entries ==> k in LoadedConfig(doc) && LoadedConfig(doc)[k] == doc.entries[k]
    ensures !doc.Found? ==> LoadedConfig(doc) == Defaults()
  {
  }

  /** Settings that have every built-in key are read back unchanged after they are written. */
  lemma ReloadRoundTrip(settings: map<string, Value>)
    requires Defaults().Keys <= settings.Keys
    ensures LoadedConfig(Found(settings)) == settings
  {
    CompleteFileUnchanged(settings, Defaults());
  }

  /**
   * What the next load sees after a save: the settings when the write succeeds, what it saw
   * before when the open fails, and the defaults when the dump fails after the open.
   */
  lemma SaveThenLoad(file: Document, settings: map<string, Value>, write: Write)
    requires Defaults().Keys <= settings.Keys
    ensures write == Written ==> LoadedConfig(AfterWrite(file, settings, write)) == settings
    ensures write == OpenFails ==> LoadedConfig(AfterWrite(file, settings, write)) == LoadedConfig(file)
    ensures write == DumpFails ==> LoadedConfig(AfterWrite(file, settings, write)) == Defaults()
  {
    ReloadRoundTrip(settings);
  }

  /** Without a usable file the theme is `"light"` and the language `"es"`. */
  lemma FreshDefaults(doc: Document)
    requires !doc.Found?
    ensures LoadedConfig(doc)["theme"] == Str("light")
    ensures LoadedConfig(doc)["language"] == Str("es")
  {
  }

  /** A file's own theme survives loading, and a file without one gets `"light"`. */
  lemma LoadedTheme(entries: map<string, Value>)
    ensures "theme" in entries ==> LoadedConfig(Found(entries))["theme"] == entries["theme"]
    ensures "theme" !in entries ==> LoadedConfig(Found(entries))["theme"] == Str("light")
  {
  }
}
