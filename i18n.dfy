/**
 * Translations of the interface texts (utils/i18n.py): one catalogue of texts per
 * language, read from the translation files for Spanish and English or, when that fails,
 * built from the catalogues in the program.
 *
 * The translation directory is an input: what each language's file holds, and whether a
 * missing file can be written.
 */
module Localization {
  import opened Wrappers
  import TimeUtils

  /** A catalogue: text key to translated text. */
  type Catalog = map<string, string>

  /** What a language's translation file holds. */
  datatype CatalogFile =
    | Present(entries: Catalog)   // a JSON object of texts
    | Absent                      // no file yet
    | Broken                      // cannot be opened or is not valid JSON

  /** The languages whose files are loaded, in order. */
  function Languages(): (r: seq<string>)
    ensures |r| == 2
  {
    ["es", "en"]
  }

  /** The built-in Spanish catalogue. */
  function SpanishCatalog(): Catalog
  {
    map[
      "app_title" := "EnergyPy - Control de Energía",
      "tab_time" := "Programar por tiempo",
      "tab_exact_time" := "Programar por hora",
      "action_shutdown" := "Apagar",
      "action_restart" := "Reiniciar",
      "time_value" := "Valor",
      "time_unit" := "Unidad",
      "seconds" := "Segundos",
      "minutes" := "Minutos",
      "hours" := "Horas",
      "exact_time" := "Hora exacta (HH:MM)",
      "schedule_button" := "Programar",
      "cancel_button" := "Cancelar",
      "theme_light" := "Tema Claro",
      "theme_dark" := "Tema Oscuro",
      "remaining_time" := "Tiempo restante",
      "confirm_title" := "Confirmar acción",
      "confirm_message" := "¿Está seguro que desea {action} el sistema en {time}?",
      "yes" := "Sí",
      "no" := "No",
      "error" := "Error",
      "success" := "Éxito",
      "action_scheduled" := "{action} programado para {time}",
      "action_cancelled" := "Acción cancelada",
      "invalid_input" := "Entrada inválida",
      "help" := "Ayuda",
      "about" := "Acerca de",
      "settings" := "Configuración",
      "language" := "Idioma",
      "notifications" := "Notificaciones",
      "minimize_to_tray" := "Minimizar a la bandeja",
      "start_minimized" := "Iniciar minimizado",
      "keyboard_shortcuts" := "Atajos de teclado",
      "save" := "Guardar",
      "reset" := "Restablecer",
      "admin_required" := "Se requieren permisos de administrador",
      "admin_message" := "Esta acción requiere permisos de administrador"]
  }

  /** The built-in English catalogue. */
  function EnglishCatalog(): Catalog
  {
    map[
      "app_title" := "EnergyPy - Power Control",
      "tab_time" := "Schedule by time",
      "tab_exact_time" := "Schedule by hour",
      "action_shutdown" := "Shutdown",
      "action_restart" := "Restart",
      "time_value" := "Value",
      "time_unit" := "Unit",
      "seconds" := "Seconds",
      "minutes" := "Minutes",
      "hours" := "Hours",
      "exact_time" := "Exact time (HH:MM)",
      "schedule_button" := "Schedule",
      "cancel_button" := "Cancel",
      "theme_light" := "Light Theme",
      "theme_dark" := "Dark Theme",
      "remaining_time" := "Remaining time",
      "confirm_title" := "Confirm action",
      "confirm_message" := "Are you sure you want to {action} the system in {time}?",
      "yes" := "Yes",
      "no" := "No",
      "error" := "Error",
      "success" := "Success",
      "action_scheduled" := "{action} scheduled for {time}",
      "action_cancelled" := "Action cancelled",
      "invalid_input" := "Invalid input",
      "help" := "Help",
      "about" := "About",
      "settings" := "Settings",
      "language" := "Language",
      "notifications" := "Notifications",
      "minimize_to_tray" := "Minimize to tray",
      "start_minimized" := "Start minimized",
      "keyboard_shortcuts" := "Keyboard shortcuts",
      "save" := "Save",
      "reset" := "Reset",
      "admin_required" := "Administrator permissions required",
      "admin_message" := "This action requires administrator permissions"]
  }

  /** The built-in catalogue of a language: Spanish for `"es"`, English for anything else. */
  function DefaultTranslations(language: string): Catalog
  {
    if language == "es" then SpanishCatalog() else EnglishCatalog()
  }

  /** The built-in catalogues by language code, as the loader falls back on them. */
  function DefaultCatalogs(): (r: map<string, Catalog>)
    ensures Covers(r)
  {
    map["es" := DefaultTranslations("es"), "en" := DefaultTranslations("en")]
  }

  /** The built-in catalogues `builtIns` have one for every language that is loaded. */
  predicate Covers(builtIns: map<string, Catalog>)
  {
    "es" in builtIns && "en" in builtIns
  }

  /**
   * Reading one language's file: its texts; the language's built-in catalogue when the file
   * is missing and can be created with it; `None` when reading (or creating) the file raises.
   */
  function ReadCatalog(file: CatalogFile, builtIn: Catalog, writable: bool): (r: Option<Catalog>)
    ensures r.None? <==> file.Broken? || (file.Absent? && !writable)
    ensures r.Some? ==> r.value == if file.Present? then file.entries else builtIn
  {
    match file
    case Present(entries) => Some(entries)
    case Absent => if writable then Some(builtIn) else None
    case Broken => None
  }

  function FileOf(files: map<string, CatalogFile>, language: string): CatalogFile
  {
    if language in files then files[language] else Absent
  }

  /** The catalogues of the first `n` of `languages`, read in order, or `None` once one of them fails. */
  function ReadFirst(files: map<string, CatalogFile>, writable: bool, builtIns: map<string, Catalog>, languages: seq<string>, n: nat)
    : Option<map<string, Catalog>>
    requires n <= |languages| && forall l :: l in languages ==> l in builtIns
  {
    if n == 0 then Some(map[])
    else
      match ReadFirst(files, writable, builtIns, languages, n - 1)
      case None => None
      case Some(read) =>
        match ReadCatalog(FileOf(files, languages[n - 1]), builtIns[languages[n - 1]], writable)
        case None => None
        case Some(catalog) => Some(read[languages[n - 1] := catalog])
  }

  /** Both built-in catalogues, as the loader sets them up after a failure. */
  function Fallback(builtIns: map<string, Catalog>): map<string, Catalog>
    requires Covers(builtIns)
  {
    map["es" := builtIns["es"], "en" := builtIns["en"]]
  }

  /** The catalogues a load ends with: those of all files, or else both built-in catalogues. */
  function LoadedCatalogs(files: map<string, CatalogFile>, writable: bool, builtIns: map<string, Catalog>)
    : map<string, Catalog>
    requires Covers(builtIns)
  {
    match ReadFirst(files, writable, builtIns, Languages(), 2)
    case Some(read) => read
    case None => Fallback(builtIns)
  }

  /** The display name of a language code; an unknown code is its own name. */
  function LanguageName(code: string): (r: string)
    ensures r == code <==> code != "es" && code != "en"
    ensures r == "Español" || r == "English" || r == code
    ensures code == "es" ==> r == "Español"
    ensures code == "en" ==> r == "English"
  {
    var names := map["es" := "Español", "en" := "English"];
    if code in names then names[code] else code
  }

  class I18n {
    const defaultLanguage: string
    var currentLanguage: string
    var translations: map<string, Catalog>

    /** Starts in the default language with the catalogues the translation files give. */
    constructor(defaultLanguage: string, files: map<string, CatalogFile>, writable: bool)
      ensures this.defaultLanguage == defaultLanguage && currentLanguage == defaultLanguage
      ensures translations == LoadedCatalogs(files, writable, DefaultCatalogs())
    {
      this.defaultLanguage := defaultLanguage;
      currentLanguage := defaultLanguage;
      translations := map[];
      new;
      LoadTranslations(files, writable, DefaultCatalogs());
    }

    /**
     * Reads each language's file in turn; after the first failure, both built-in catalogues
     * (`builtIns`) are used instead.
     */
    method LoadTranslations(files: map<string, CatalogFile>, writable: bool, builtIns: map<string, Catalog>)
      requires Covers(builtIns)
      modifies this
      ensures translations == old(translations) + LoadedCatalogs(files, writable, builtIns)
      ensures currentLanguage == old(currentLanguage)
    {
      var languages := Languages();
      var loaded := translations;
      var i := 0;
      var failed := false;
      ghost var read: map<string, Catalog> := map[];
      while i < |languages| && !failed
        invariant 0 <= i <= |languages|
        invariant loaded == old(translations) + read
        invariant forall k :: k in read ==> k == "es" || k == "en"
        invariant !failed ==> ReadFirst(files, writable, builtIns, languages, i) == Some(read)
        invariant failed ==> ReadFirst(files, writable, builtIns, languages, i).None?
        invariant currentLanguage == old(currentLanguage)
      {
        var language := languages[i];
        var catalog := ReadCatalog(FileOf(files, language), builtIns[language], writable);
        if catalog.None? {
          failed := true;
        } else {
          loaded := loaded[language := catalog.value];
          read := read[language := catalog.value];
        }
        i := i + 1;
      }
      if failed {
        assert LoadedCatalogs(files, writable, builtIns) == Fallback(builtIns) by {
          ReadFailureStays(files, writable, builtIns, languages, i);
        }
        FallbackReplacesRead(old(translations), read, builtIns);
        loaded := loaded["es" := builtIns["es"]]["en" := builtIns["en"]];
      } else {
        assert LoadedCatalogs(files, writable, builtIns) == read;
      }
      translations := loaded;
    }

    /** Switches to a loaded language; any other code is refused and nothing changes. */
    method SetLanguage(language: string) returns (ok: bool)
      modifies this
      ensures ok <==> language in translations
      ensures currentLanguage == if ok then language else old(currentLanguage)
      ensures translations == old(translations)
    {
      if language in translations {
        currentLanguage := language;
        return true;
      }
      return false;
    }

    /** The current language's catalogue, else the default language's, else none. */
    function ActiveCatalog(): (r: Catalog)
      reads this
      ensures currentLanguage in translations ==> r == translations[currentLanguage]
      ensures currentLanguage !in translations && defaultLanguage in translations ==> r == translations[defaultLanguage]
      ensures currentLanguage !in translations && defaultLanguage !in translations ==> r == map[]
    {
      if currentLanguage in translations then translations[currentLanguage]
      else if defaultLanguage in translations then translations[defaultLanguage]
      else map[]
    }

    /** The translated text of `key`, or the key itself when the catalogue lacks it. */
    function GetText(key: string): (r: string)
      reads this
      ensures key in ActiveCatalog() ==> r == ActiveCatalog()[key]
      ensures key !in ActiveCatalog() ==> r == key
    {
      var catalog := ActiveCatalog();
      if key in catalog then catalog[key] else key
    }

    /** The codes of the loaded languages. */
    function GetAvailableLanguages(): (r: set<string>)
      reads this
      ensures forall language :: language in r <==> language in translations
    {
      translations.Keys
    }
  }

  // ---------------------------------------------------------------------------
  // Lemmas

  /** Once one file fails, reading more languages cannot succeed. */
  lemma {:induction false} ReadFailureStays(
    files: map<string, CatalogFile>, writable: bool, builtIns: map<string, Catalog>, languages: seq<string>, i: nat)
    requires i <= |languages| && forall l :: l in languages ==> l in builtIns
    requires ReadFirst(files, writable, builtIns, languages, i).None?
    ensures ReadFirst(files, writable, builtIns, languages, |languages|).None?
    decreases |languages| - i
  {
    if i < |languages| {
      ReadFailureStays(files, writable, builtIns, languages, i + 1);
    }
  }

  /**
   * Reading the first `n` languages fails exactly when one of their files fails; otherwise
   * it gives one catalogue per language, each what that language's file gave.
   */
  lemma {:induction false} ReadFirstMeaning(
    files: map<string, CatalogFile>, writable: bool, builtIns: map<string, Catalog>, languages: seq<string>, n: nat)
    requires n <= |languages| && forall l :: l in languages ==> l in builtIns
    ensures var r := ReadFirst(files, writable, builtIns, languages, n);
      r.None? <==> exists i :: 0 <= i < n && ReadCatalog(FileOf(files, languages[i]), builtIns[languages[i]], writable).None?
    ensures var r := ReadFirst(files, writable, builtIns, languages, n);
      r.Some? ==> r.value.Keys == set i | 0 <= i < n :: languages[i]
    ensures var r := ReadFirst(files, writable, builtIns, languages, n);
      r.Some? ==> forall l :: l in r.value ==>
        l in builtIns && ReadCatalog(FileOf(files, l), builtIns[l], writable) == Some(r.value[l])
  {
    if n > 0 {
      ReadFirstMeaning(files, writable, builtIns, languages, n - 1);
    }
  }

  /** Every loaded catalogue is the language's built-in one or the texts of its own file. */
  lemma LoadedFromFilesOrBuiltIns(files: map<string, CatalogFile>, writable: bool, builtIns: map<string, Catalog>)
    requires Covers(builtIns)
    ensures var r := LoadedCatalogs(files, writable, builtIns);
      forall l :: l in r ==>
        l in builtIns && (r[l] == builtIns[l] || (FileOf(files, l).Present? && r[l] == FileOf(files, l).entries))
  {
    ReadFirstMeaning(files, writable, builtIns, Languages(), 2);
  }

  /** Setting both built-in catalogues over what was read leaves the same as the fallback alone. */
  lemma FallbackReplacesRead(base: map<string, Catalog>, read: map<string, Catalog>, builtIns: map<string, Catalog>)
    requires Covers(builtIns) && forall k :: k in read ==> k == "es" || k == "en"
    ensures (base + read)["es" := builtIns["es"]]["en" := builtIns["en"]] == base + Fallback(builtIns)
  {
  }

  /** Reading the two languages' files: both catalogues, or `None` when either read fails. */
  lemma ReadBothLanguages(files: map<string, CatalogFile>, writable: bool, builtIns: map<string, Catalog>)
    requires Covers(builtIns)
    ensures var es := ReadCatalog(FileOf(files, "es"), builtIns["es"], writable);
            var en := ReadCatalog(FileOf(files, "en"), builtIns["en"], writable);
      ReadFirst(files, writable, builtIns, Languages(), 2)
        == if es.Some? && en.Some? then Some(map["es" := es.value, "en" := en.value]) else None
  {
    var languages := Languages();
    var es := ReadCatalog(FileOf(files, "es"), builtIns["es"], writable);
    assert ReadFirst(files, writable, builtIns, languages, 1) == if es.Some? then Some(map["es" := es.value]) else None;
  }

  /** However the files look, exactly Spanish and English are loaded. */
  lemma LoadedLanguages(files: map<string, CatalogFile>, writable: bool, builtIns: map<string, Catalog>)
    requires Covers(builtIns)
    ensures LoadedCatalogs(files, writable, builtIns).Keys == {"es", "en"}
  {
    ReadBothLanguages(files, writable, builtIns);
  }

  /**
   * Two readable files are taken as they are; a broken file, or a missing one that cannot
   * be created, makes both languages use their built-in catalogues; a missing file that
   * can be created gives its language's built-in catalogue.
   */
  lemma LoadOutcomes(files: map<string, CatalogFile>, writable: bool, builtIns: map<string, Catalog>)
    requires Covers(builtIns)
    ensures (FileOf(files, "es").Present? && FileOf(files, "en").Present?) ==>
      LoadedCatalogs(files, writable, builtIns) == map["es" := FileOf(files, "es").entries, "en" := FileOf(files, "en").entries]
    ensures (FileOf(files, "es").Broken? || FileOf(files, "en").Broken?) ==>
      LoadedCatalogs(files, writable, builtIns) == Fallback(builtIns)
    ensures (!writable && (FileOf(files, "es").Absent? || FileOf(files, "en").Absent?)) ==>
      LoadedCatalogs(files, writable, builtIns) == Fallback(builtIns)
    ensures (writable && FileOf(files, "es").Absent? && !FileOf(files, "en").Broken?) ==>
      "es" in LoadedCatalogs(files, writable, builtIns) && LoadedCatalogs(files, writable, builtIns)["es"] == builtIns["es"]
    ensures (writable && FileOf(files, "en").Absent? && !FileOf(files, "es").Broken?) ==>
      "en" in LoadedCatalogs(files, writable, builtIns) && LoadedCatalogs(files, writable, builtIns)["en"] == builtIns["en"]
  {
    ReadBothLanguages(files, writable, builtIns);
  }

  /** Both built-in catalogues translate the same keys, and any code but `"es"` gets the English one. */
  lemma DefaultCatalogsAgree(language: string)
    ensures DefaultTranslations("es").Keys == DefaultTranslations("en").Keys
    ensures language != "es" ==> DefaultTranslations(language) == DefaultTranslations("en")
  {
  }

  lemma SpanishUnitNames(unit: string)
    requires unit in TimeUtils.TimeUnits()
    ensures unit in SpanishCatalog() && SpanishCatalog()[unit] == TimeUtils.GetTimeUnitLabel(unit, "es")
  {
  }

  lemma EnglishUnitNames(unit: string)
    requires unit in TimeUtils.TimeUnits()
    ensures unit in EnglishCatalog() && EnglishCatalog()[unit] == TimeUtils.GetTimeUnitLabel(unit, "en")
  {
  }

  /** The built-in catalogues name the time units as the unit labels do. */
  lemma UnitNamesAgree(unit: string, language: string)
    requires unit in TimeUtils.TimeUnits() && (language == "es" || language == "en")
    ensures unit in DefaultTranslations(language)
    ensures DefaultTranslations(language)[unit] == TimeUtils.GetTimeUnitLabel(unit, language)
  {
    if language == "es" {
      SpanishUnitNames(unit);
    } else {
      EnglishUnitNames(unit);
    }
  }

  /** A language that is not loaded falls back to the default language's texts. */
  lemma TextFallsBackToDefault(i18n: I18n, key: string)
    requires i18n.currentLanguage !in i18n.translations && i18n.defaultLanguage in i18n.translations
    ensures key in i18n.translations[i18n.defaultLanguage] ==> i18n.GetText(key) == i18n.translations[i18n.defaultLanguage][key]
    ensures key !in i18n.translations[i18n.defaultLanguage] ==> i18n.GetText(key) == key
  {
  }

  /** With neither the current nor the default language loaded, every key is shown as itself. */
  lemma TextWithoutCatalog(i18n: I18n, key: string)
    requires i18n.currentLanguage !in i18n.translations && i18n.defaultLanguage !in i18n.translations
    ensures i18n.GetText(key) == key
  {
  }
}
