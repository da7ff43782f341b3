# EnergyPy scheduled-action engine, modelled in Dafny

EnergyPy is a desktop tool that shuts down or restarts the computer after a delay or at a
clock time. This project models its core and proves properties of that model:

- **the system model** (`models/system_model.py`), in `system_model.dfy`. It is a class
  `SystemModel` that is idle or holds one pending shutdown or restart. It chooses the
  operating system's `shutdown` command (seconds on Windows, whole minutes on Linux and
  macOS), cancels the pending action, and reports the whole seconds left.
- **the time utilities** (`utils/time_utils.py`), in `time_utils.dfy`. These pure
  functions validate a typed duration and an `HH:MM` clock time, convert units to seconds,
  format a countdown as `HH:MM:SS`, turn a clock time into the next matching date and time,
  and name the units in Spanish or English.
- **the preferences** (`models/config_model.py`), in `config_model.dfy`. This is a class
  `ConfigModel` over a settings dictionary. It is loaded from a JSON file and completed with
  ten built-in defaults, then written back after every change. Theme and language are each
  restricted to two values.
- **the translations** (`utils/i18n.py`), in `i18n.dfy`. This is a class `I18n` holding one
  catalogue of interface texts per language. The catalogues are read from the Spanish and
  English files, or else taken from the built-in catalogues. A missing text shows its key.

The supporting modules model the parts of Python and its library that the core relies on:

- `wrappers.dfy` defines `Option` and `Result`.
- `text.dfy` covers `str.isdigit`, `str.strip`, `str.split`, `str(int)` and `int(str)`. The
  `int(str)` model includes a sign, `_` digit separators and surrounding whitespace. That
  whitespace is `int()`'s own: space, tab, LF, VT, FF and CR. `str.strip` also removes the
  separators 0x1C–0x1F. `int()` raises ValueError on text of more than 4300 digits, the default
  of `sys.int_max_str_digits` since Python 3.11; leading zeros count, underscores do not.
- `calendar.dfy` covers the proleptic Gregorian calendar of `datetime`. It gives day ordinals,
  field-by-field comparison, `replace(day=…)`, `+ timedelta(days=1)` and
  `int(total_seconds())`.

Clock readings (`datetime.now()`) are `DateTime` parameters. A pending time is stored as its
instant: the day's ordinal (0001-01-01 is day 1) times the microseconds in a day, plus the
microseconds since midnight. Where the source reads the clock twice, the model
takes two readings: `schedule_shutdown_at_time` reads it once itself and once more inside
`schedule_shutdown`.

Starting a process is an outcome the caller supplies: `Launch` for commands, `Write` for the
configuration file, and `writable` for the translation files. The argument lists that reach the
operating system are recorded in a ghost field.

Each state-changing method is tied to a pure function of the old state:

- `ScheduleStep` and `CancelStep` for the system model;
- `LoadedConfig` and `Completed` for loading the preferences, and `AfterWrite` for saving them;
- `LoadedCatalogs` for loading the translations.

The lemmas state what the source promises about those functions.

## Model

| member | source | states |
|---|---|---|
| Text.PyInt | utils/time_utils.py:120 | `int()` of text: a value only for text that holds more than whitespace, by either `str.strip`'s or `int()`'s own measure; none past 4300 digits |
| Text.NatToString | models/system_model.py:57 | `str()` of a natural number: only digits, no leading zero, one character exactly below 10 |
| Text.IntToString | models/system_model.py:57 | `str()` of an integer: starts with `-` exactly for a negative number |
| Text.ParseNatToString | utils/time_utils.py:29 | reading back the digits `str()` prints gives the number |
| Text.PyIntOfIntToString | models/system_model.py:57 | `int(str(i)) == i` for every integer of at most 4300 digits, negatives included; `int()` raises on a longer one |
| Text.PyIntOfDigits | utils/time_utils.py:120 | `int()` of a digit string followed by whitespace `int()` skips (space, tab, LF, VT, FF, CR) is the number the digits spell, and raises exactly when there are more than 4300 digits |
| Text.StripRemovesSeparator | utils/time_utils.py:25 | `str.strip` removes a trailing separator 0x1C–0x1F after digits |
| Text.IntRefusesSeparator | utils/time_utils.py:120 | `int()` raises on digits followed by a separator 0x1C–0x1F |
| Text.Strip | utils/time_utils.py:25 | stripping leaves nothing exactly when the text is all whitespace |
| Text.Split | utils/time_utils.py:120 | splitting gives at least one piece, and the text itself when the separator is absent |
| Text.SplitTwo | utils/time_utils.py:120 | text made of two separator-free pieces joined by the separator splits into exactly those pieces |
| Calendar.DaysInMonth | models/system_model.py:90 | every month has 28 to 31 days, which bounds the days `replace(day=…)` accepts |
| Calendar.ReplaceDay | models/system_model.py:90 | `replace(day=…)` succeeds exactly for a day from 1 to the month's length, keeping year and month |
| Calendar.NextDay | utils/time_utils.py:126 | `+ timedelta(days=1)` gives a valid date one ordinal later, and fails exactly on 9999-12-31 |
| Calendar.TruncSeconds | models/system_model.py:92 | `int(total_seconds())` is the whole seconds truncated toward zero, for either sign |
| Calendar.InstantOrder | models/system_model.py:88 | the field-by-field `<` and `<=` of two datetimes agree with the order of their instants |
| Calendar.InstantInRange | models/system_model.py:50-51 | every valid datetime, such as a `datetime.now()` reading, is an instant within years 1 to 9999 |
| TimeUtils.ValidateTimeInput | utils/time_utils.py:22-48 | the verdict is valid exactly when the message is empty |
| TimeUtils.ValidateNumberMeaning | utils/time_utils.py:32-48 | a number is accepted iff it is non-negative and, in a known unit, converts to at most 86400 seconds |
| TimeUtils.RejectsBlank | utils/time_utils.py:25-26 | blank text is refused with the empty-value message in every unit |
| TimeUtils.RejectsNonDigits | utils/time_utils.py:27-28 | non-blank text with any non-digit (a leading space or `-` included) is refused as not an integer |
| TimeUtils.ValidateDigits | utils/time_utils.py:27-50 | `int()` refuses a digit string exactly past 4300 digits, and the answer is then "Error de validación" with `int()`'s message; otherwise the string gets the verdict of the number `int()` reads |
| TimeUtils.ValidateTextOfNumber | utils/time_utils.py:24-50 | typing a number gives the same verdict as passing it as an int, as long as it has at most 4300 digits; a longer one gets "Error de validación" |
| TimeUtils.CeilingsInclusive | utils/time_utils.py:35-46 | 86400 s, 1440 min and 24 h pass and one more fails; -1 fails; an unknown unit has no ceiling |
| TimeUtils.ValidateTimeFormat | utils/time_utils.py:62-70 | valid exactly when the `^…$` pattern matches, and exactly when the message is empty |
| TimeUtils.ClockTextMeaning | utils/time_utils.py:66 | the pattern accepts exactly a 1–2 digit hour below 24, a colon and a 2-digit minute below 60 |
| TimeUtils.ParseHourMinute | utils/time_utils.py:120 | two integers are read only from text holding a colon |
| TimeUtils.ClockFormatExamples | utils/time_utils.py:62-70 | `9:05` and `23:59` pass; `9:5` and `24:00` are malformed; empty text is refused as empty; a trailing newline passes |
| TimeUtils.TimeUnits | utils/time_utils.py:137 | the three units, seconds, minutes and hours |
| TimeUtils.ConvertToSeconds | utils/time_utils.py:83-90 | a result exactly for the three units, else the ValueError message naming the unit |
| TimeUtils.AcceptedConvertsWithinDay | utils/time_utils.py:35-46 | anything validation accepts in a known unit converts to between 0 and 86400 seconds |
| TimeUtils.Pad2 | utils/time_utils.py:107 | `:02d` gives at least two characters, exactly two below 100, reading back as the number |
| TimeUtils.FormatTimeRemaining | utils/time_utils.py:102-107 | the `--:--:--` placeholder exactly when there is no time |
| TimeUtils.FormatRoundTrip | utils/time_utils.py:105-107 | the countdown's fields read back as hours·3600 + minutes·60 + seconds = n, with the minutes and seconds fields below 60; 8 characters below 100 hours |
| TimeUtils.PlaceholderIsNotCountdown | utils/time_utils.py:102-103 | the placeholder does not read as any number of seconds |
| TimeUtils.ParseCountdownFields | utils/time_utils.py:107 | an hours field and two two-digit fields joined by colons read back as their weighted sum |
| TimeUtils.TimeStringToDatetime | utils/time_utils.py:119-128 | a result is a valid datetime on a whole minute (its hour, minute and window are in ValidatedTextTime, its errors in ClockErrors and OverlongFieldRefused) |
| TimeUtils.AtClockTime | utils/time_utils.py:122-128 | a result is a valid datetime with zero seconds and microseconds |
| TimeUtils.ClockErrors | utils/time_utils.py:122-126 | OverflowError exactly when the hour or minute is outside the C int range, or tomorrow is past 9999-12-31; ValueError exactly for C ints that are no valid hour and minute |
| TimeUtils.OverlongFieldRefused | utils/time_utils.py:120 | an hour field of more than 4300 digits raises ValueError |
| TimeUtils.NextOccurrence | utils/time_utils.py:122-128 | the result has the asked hour and minute, lies in `[now, now + 1 day)`, and is today iff today's occurrence is not before now |
| TimeUtils.ClockPieces | utils/time_utils.py:66 | accepted text is digits, a colon, two digits and nothing or one newline, with hour < 24 and minute < 60 |
| TimeUtils.ValidatedTextParses | utils/time_utils.py:120 | text `validate_time_format` accepts starts with hour digits, a colon and minute digits, and is read as the hour and minute those digits spell, below 24 and 60 |
| TimeUtils.ValidatedTextConverts | utils/time_utils.py:119-128 | text `validate_time_format` accepts is always converted unless today is 9999-12-31 |
| TimeUtils.ValidatedTextTime | utils/time_utils.py:119-128 | for accepted text the result is the next occurrence of the clock time it spells: that hour and minute, in `[now, now + 1 day)` |
| TimeUtils.GetTimeUnitLabel | utils/time_utils.py:150-163 | an unknown unit is its own label; a known unit gets a label different from itself |
| TimeUtils.UnitLabelFallback | utils/time_utils.py:163 | any language but Spanish reads the English labels |
| Scheduling.OsFromName | models/system_model.py:21 | the system family is recognised from the lower-cased name exactly |
| Scheduling.Lower | models/system_model.py:21 | lower-casing keeps the length and lowers each character on its own |
| Scheduling.LowerChar | models/system_model.py:21 | A–Z become the matching a–z; every other character is kept |
| Scheduling.SystemNames | models/system_model.py:21 | the names `platform.system()` reports, `Windows`, `Linux` and `Darwin`, are recognised; another name is not |
| Scheduling.Remaining | models/system_model.py:128-129 | the seconds left are never negative |
| Scheduling.ScheduleCommand | models/system_model.py:54-68 | no command exactly on another system; the command is `shutdown` with four arguments on Windows and three on Linux and macOS |
| Scheduling.CancelCommand | models/system_model.py:102-108 | no command exactly on another system; `shutdown /a` on Windows, `shutdown -c` on Linux and macOS |
| Scheduling.ScheduleStep | models/system_model.py:50-75 | succeeds exactly when the time is in range, the system is supported and the command starts; a failure keeps the process and starts nothing; time and action stay set together |
| Scheduling.CancelStep | models/system_model.py:101-117 | succeeds exactly on a supported system whose command starts, leaving nothing pending; a failure changes nothing |
| Scheduling.AtTimeDelay | models/system_model.py:87-92 | raises exactly when the target is not later than now and the day after now's day is past the end of the target's month; a later target gives a delay ≥ 0 |
| Scheduling.SystemModel.constructor | models/system_model.py:19-25 | a new model is idle: no process, no time, no action |
| Scheduling.SystemModel.ScheduleShutdown | models/system_model.py:50-75 | the new state and result are `ScheduleStep` of the old state; the invariant is kept; on success the countdown shows `max(0, seconds)` |
| Scheduling.SystemModel.ScheduleShutdownAtTime | models/system_model.py:87-93 | raises exactly when `AtTimeDelay` has no delay, leaving the state alone; otherwise acts as `ScheduleStep` with that delay and the second clock reading |
| Scheduling.SystemModel.CancelScheduledAction | models/system_model.py:101-117 | the new state and result are `CancelStep` of the old state; the invariant is kept |
| Scheduling.SystemModel.GetRemainingTime | models/system_model.py:125-129 | `None` exactly while nothing is pending, otherwise a non-negative count |
| Scheduling.SystemModel.GetScheduledInfo | models/system_model.py:137-144 | `None` exactly while nothing is pending, otherwise the stored action and time and the current countdown |
| Scheduling.RemainingRightAfterScheduling | models/system_model.py:51 | asked at the scheduling instant, the countdown is the delay, or 0 for a negative delay |
| Scheduling.RemainingMeaning | models/system_model.py:128-129 | the countdown is 0 iff less than a second is left, else the whole seconds left |
| Scheduling.RemainingMonotone | models/system_model.py:128-129 | the countdown never rises as the clock advances |
| Scheduling.RemainingTimeNeverIncreases | models/system_model.py:125-129 | `get_remaining_time` at a later clock reading is at most the earlier one |
| Scheduling.ScheduleCommandMeaning | models/system_model.py:54-65 | no command exactly on another system; `/s` or `/r` on Windows and `-h` or `-r` on Linux and macOS, the halt flag exactly for `"shutdown"`; for a delay within the digit limit, it reads back as the seconds (Windows) or the whole minutes (Linux, macOS) |
| Scheduling.WindowsCommandDelay | models/system_model.py:57 | for seconds within the digit limit, the Windows command's fourth argument reads back as the seconds |
| Scheduling.UnixCommandDelay | models/system_model.py:61 | for minutes within the digit limit, the `+N` argument reads back as N with N·60 ≤ seconds < N·60 + 60 |
| Scheduling.StoredDelaysWithinLimit | models/system_model.py:50-57 | a delay that passes the datetime addition has fewer than 13 digits, so `str()` of it stays within the 4300-digit limit |
| Scheduling.ClockDelaysWithinLimit | models/system_model.py:50-57 | once `datetime.now() + timedelta(seconds=seconds)` has succeeded, `str(seconds)` is within the digit limit |
| Scheduling.CommandExamples | models/system_model.py:57-65 | 90 s becomes `+1` on Linux, 59 s becomes `+0` on macOS, and a restart on Windows keeps `90` |
| Scheduling.ScheduleSuccess | models/system_model.py:50-72 | success stores `now + seconds` and the action, and starts and records exactly its command |
| Scheduling.ScheduleFailure | models/system_model.py:50-75 | failure starts nothing and keeps the old process; time and action are already overwritten unless the time overflowed |
| Scheduling.CancelMeaning | models/system_model.py:101-117 | cancel succeeds iff the system is supported and the command starts; then everything is cleared, otherwise nothing changes |
| Scheduling.StepsKeepEngineValid | models/system_model.py:51-52 | scheduling and cancelling keep time and action set or cleared together |
| Scheduling.FutureTargetDelay | models/system_model.py:87-92 | a target later than now keeps its date; the delay is the whole seconds until it |
| Scheduling.SameDayRollover | models/system_model.py:88-92 | a passed time today, not on a month's last day, gives the whole seconds until the same time tomorrow: 0 to 86400, and at least 1 on a whole-second clock |
| Scheduling.MonthEndRolloverRaises | models/system_model.py:90 | on the last day of the target's month the rollover raises |
| Config.Defaults | models/config_model.py:22-37 | ten built-in settings, theme `light` and language `es` among them |
| Config.Completed | models/config_model.py:60-62 | every key of the file and of the defaults is present, with the file's own values kept |
| Config.BackfillDefaults | models/config_model.py:60-62 | the loop ends with the file's settings completed by the missing defaults |
| Config.CompletedMeaning | models/config_model.py:60-62 | completing keeps every setting of the file, adds exactly the missing defaults, and adds no other key |
| Config.CompleteFileUnchanged | models/config_model.py:60-62 | a file that has every default is taken unchanged |
| Config.CompletedIdempotent | models/config_model.py:60-62 | completing twice adds nothing more |
| Config.LoadedConfig | models/config_model.py:53-69 | no contract of its own; its facts are stated by LoadedConfigComplete |
| Config.AfterWrite | models/config_model.py:71-79 | no contract of its own; what a load then sees is stated by SaveThenLoad, and each writer's contract names it |
| Config.LoadedConfigComplete | models/config_model.py:53-69 | whatever the file holds, the loaded settings have every built-in key; a file's own settings are kept; without a usable file the settings are the defaults |
| Config.ReloadRoundTrip | models/config_model.py:55-63 | settings with every built-in key are read back unchanged after they are written |
| Config.FreshDefaults | models/config_model.py:64-69 | without a usable file the theme is `light` and the language `es` |
| Config.LoadedTheme | models/config_model.py:58-63 | a file's own theme survives loading; a file without one gets `light` |
| Config.SaveThenLoad | models/config_model.py:55-79 | after a save the next load sees the settings if the write succeeded, what it saw before if the open failed, and the defaults if the dump failed after the open emptied the file |
| Config.ConfigModel.constructor | models/config_model.py:17-38 | the settings are `LoadedConfig` of the file; a missing file is then written with the defaults, with any of the three write outcomes |
| Config.ConfigModel.LoadConfig | models/config_model.py:53-69 | the result is `LoadedConfig` of the file; only a missing file is written, with the defaults |
| Config.ConfigModel.SaveConfig | models/config_model.py:71-79 | succeeds exactly when the write does; the file then holds the settings, stays as it was when the open fails, and no longer parses when the dump fails |
| Config.ConfigModel.GetConfig | models/config_model.py:90-92 | no key gives all settings; a stored key gives its value, else a built-in key its default, else `null` |
| Config.ConfigModel.SetConfig | models/config_model.py:104-105 | only that key changes, even when the write fails; the file is as `AfterWrite` leaves it; on success a reload gives back the same settings |
| Config.ConfigModel.ResetConfig | models/config_model.py:113-114 | the settings become the defaults; the file is as `AfterWrite` leaves it; the result is whether the write succeeded |
| Config.ConfigModel.GetTheme | models/config_model.py:122 | the stored theme, else `light` |
| Config.ConfigModel.SetTheme | models/config_model.py:133-135 | only `light` and `dark` are stored; anything else is refused with nothing changed; success makes it the theme |
| Config.ConfigModel.GetLanguage | models/config_model.py:143 | the stored language, else `es` |
| Config.ConfigModel.SetLanguage | models/config_model.py:154-156 | only `es` and `en` are stored; anything else is refused with nothing changed; success makes it the language |
| Localization.LanguageName | utils/i18n.py:224-228 | a code is its own name exactly when it is neither `es` nor `en`, `es` is named Español and `en` English |
| Localization.Languages | utils/i18n.py:36 | two languages are loaded, Spanish then English |
| Localization.DefaultCatalogs | utils/i18n.py:69-72 | there is a built-in catalogue for both loaded languages |
| Localization.ReadCatalog | utils/i18n.py:36-44 | reading a file fails exactly when it is broken, or missing and not writable; otherwise it gives the file's texts, or the built-in ones for a created file |
| Localization.ReadFirst | utils/i18n.py:36-44 | no contract of its own; its facts are stated by ReadFirstMeaning |
| Localization.LoadedCatalogs | utils/i18n.py:28-50 | no contract of its own; its facts are stated by LoadedFromFilesOrBuiltIns, LoadedLanguages and LoadOutcomes |
| Localization.ReadFirstMeaning | utils/i18n.py:36-44 | reading the first n languages fails exactly when one of their files fails; otherwise it gives exactly those languages, each with what its file gave |
| Localization.LoadedFromFilesOrBuiltIns | utils/i18n.py:28-50 | every loaded catalogue is the language's built-in one or the texts of its own file |
| Localization.I18n.constructor | utils/i18n.py:23-26 | current language = default language; the catalogues are `LoadedCatalogs` of the files |
| Localization.I18n.LoadTranslations | utils/i18n.py:28-50 | the catalogues are `LoadedCatalogs`: every file in turn, or both built-in catalogues after the first failure |
| Localization.I18n.SetLanguage | utils/i18n.py:173-176 | succeeds iff the language is loaded; only then does the current language change |
| Localization.I18n.ActiveCatalog | utils/i18n.py:189-192 | the current language's catalogue, else the default language's, else an empty one |
| Localization.I18n.GetText | utils/i18n.py:195 | the active catalogue's text for the key, or the key itself |
| Localization.I18n.GetAvailableLanguages | utils/i18n.py:213 | exactly the loaded languages |
| Localization.ReadFailureStays | utils/i18n.py:36-50 | once one file fails, the read as a whole fails |
| Localization.FallbackReplacesRead | utils/i18n.py:69-72 | putting both built-in catalogues over partly read ones gives the same as the built-in ones alone |
| Localization.ReadBothLanguages | utils/i18n.py:36-44 | the read gives both catalogues, or fails when either file fails |
| Localization.LoadedLanguages | utils/i18n.py:36-50 | whatever the files hold, exactly Spanish and English are loaded |
| Localization.LoadOutcomes | utils/i18n.py:36-50 | two readable files are taken as they are; a broken or uncreatable file gives both built-in catalogues; a created file gives its built-in catalogue |
| Localization.DefaultTranslations | utils/i18n.py:83-162 | no contract of its own; its content is stated by DefaultCatalogsAgree and UnitNamesAgree |
| Localization.DefaultCatalogsAgree | utils/i18n.py:83-162 | both built-in catalogues have the same keys; any code but `es` gets the English one |
| Localization.SpanishUnitNames | utils/i18n.py:92-94 | the Spanish catalogue names the units as the Spanish unit labels do |
| Localization.EnglishUnitNames | utils/i18n.py:132-134 | the English catalogue names the units as the English unit labels do |
| Localization.UnitNamesAgree | utils/i18n.py:92-94 | for both languages, the built-in catalogue and `get_time_unit_label` agree on the units |
| Localization.TextFallsBackToDefault | utils/i18n.py:189-195 | with the current language not loaded, texts come from the default language, or are the key |
| Localization.TextWithoutCatalog | utils/i18n.py:189-195 | with neither language loaded, every key is shown as itself |

## Left out

- Characters outside ASCII are not modelled. `str.isdigit` also accepts the decimal digits of other scripts, and `int()` reads them: `"３０"` passes validation as 30, where the model refuses it as not an integer. `str.isdigit` accepts digits such as `²` too; `int()` then raises, and validation answers "Error de validación: …". `str.strip`, `int()` and `str.lower` also treat more whitespace and letters than the model does.
- Text.IntToString: `str()` of an integer of more than 4300 digits raises ValueError; the model writes it out. The only call, at models/system_model.py:57, comes after the datetime addition, and StoredDelaysWithinLimit shows that every delay reaching it is within the limit. The read-back lemmas (PyIntOfIntToString, ScheduleCommandMeaning, WindowsCommandDelay, UnixCommandDelay) are stated for integers within it.
- Scheduling.ScheduleCommandMeaning: the delay read-back is stated only for delays within the 4300-digit limit; past it `str()` would raise. StoredDelaysWithinLimit shows that every delay the source prints is within it.
- Scheduling.WindowsCommandDelay: requires the seconds to be within the 4300-digit limit, for the same reason.
- Scheduling.UnixCommandDelay: requires the whole minutes to be within the 4300-digit limit, for the same reason.
- The 4300-digit limit is the interpreter's default. `sys.set_int_max_str_digits` and the `PYTHONINTMAXSTRDIGITS` environment variable can change or disable it; the model fixes the default. The message is the wording Python 3.12 and later use.
- Validation of values that are neither text nor an int is not modelled. A float goes through the same range checks as an int: 90.5 is accepted and 100000.0 gets the 86400-second ceiling message. `None`, and anything else that cannot be compared with 0, raises TypeError, which gets "Error de validación: …".
- Floating-point JSON numbers, and configuration or translation files whose top level is not an object, are not modelled. Translation values are taken to be strings.
- Dictionary key order is not modelled. `get_available_languages` and the written JSON list keys in insertion order; the model gives a set and maps.
- `get_config()` without a key returns the live dictionary, and `reset_config` shares the nested `keyboard_shortcuts` dictionary with the defaults. The model works on values, so this aliasing is not captured.
- Config.ConfigModel.GetConfig: without a key it returns the settings as a value, not the live dictionary.
- Localization.I18n.GetText: `str.format` substitution of keyword arguments, and its KeyError fallback, are not modelled. The result is the looked-up text.
- Localization.I18n.LoadTranslations: the built-in catalogues are a parameter, which the constructor supplies as `DefaultCatalogs()`. The file written for a missing language is not recorded. The model assigns the catalogues after reading both files, where the source fills the dictionary in place as it goes; nothing reads the dictionary in between.
- Scheduling.SameDayRollover: the delay is stated as 0 to 86400 seconds rather than always positive. With a clock that has microseconds, a target at 00:00:00 and `now` in the last second of the same day give 0.
- Calendar.TruncSeconds: it truncates the exact difference. `total_seconds()` returns a rounded float, and from about 2^34 seconds (some 544 years) on, `int()` of it can be one second more. The delay at models/system_model.py:92 and the countdown at :128-129 are therefore faithful only for differences below 2^34 seconds.
- Scheduling.SystemModel.ScheduleShutdown: the `timedelta` and datetime overflow is modelled as the target instant falling outside years 1 to 9999. The `Process` handle stands for `subprocess.Popen`; the process itself is not modelled.
- `requires_admin`, `get_os_type`, logging, the configuration directory (`_get_config_dir`), the controllers, the views, the entry point and the build script are not part of this model.
- The wall clock, process launching, and file reads and writes are inputs, not effects. Their outcomes are parameters.
