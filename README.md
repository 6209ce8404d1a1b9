# ibus language-name registry, modelled in Dafny

IBus turns a locale identifier such as `en_US` or `ja` into a language name.
It uses the ISO 639-3 data set that the iso-codes package ships as JSON. There
are two implementations of this registry:

- `src/ibusutil.c` builds a process-wide hash table the first time a lookup is
  made. It keeps every record that has a `name` and adds `alpha_3 → name`,
  then `alpha_2 → name`. A lookup cuts the locale at its first `_`, folds it to
  ASCII lower case, and answers with the stored name or `"Other"`. A second
  entry point then translates that answer through gettext.
- `ibus/lang.py` fills a module-level dictionary when the module is imported.
  It adds `alpha_2` first, then `alpha_3`, and looks a locale up in the same
  way.

The model has these parts:

- `wrappers.dfy`: `Option` and `Result`.
- `json_doc.dfy`: an already-parsed JSON node. A `Document` is one of three things: the data file is missing, it does not parse, or it parsed to a root node.
- `locale.dfy`: four definitions and the proofs that relate them:
  - C's cut (`strchr` plus `g_strndup`);
  - Python's `split("_")` and its inverse, `join`;
  - ASCII lower-casing;
  - the lookup key.
- `iso_codes.dfy` covers the C algorithm as functions:
  - `get_detail_from_object`;
  - what one record adds to the table, and how the array fills it (last write wins);
  - the schema gate;
  - the lookup with its fallback;
  - the translated variant.
- `ibus_util.dfy`: the C registry as a class. `created` stands for `__languages_dict != NULL` and `languages` for the table. Its methods are proved against the functions of `iso_codes.dfy`. One of these proofs shows that the table is loaded at most once.
- `lang.dfy` covers the Python loader, whose exceptions are modelled as `Result` errors:
  - the loader as a function (`Load`), and as a method with the two nested loops (`LoadLang`);
  - `get_language_name`;
  - the proof that the Python dictionary equals the C table whenever the import succeeds with string names.

The model follows the code on two points that are easy to misread:

- An empty `name`, `alpha_2` or `alpha_3` string counts as present, because `g_strdup("")` is not NULL. Such a record is not skipped.
- Codes are not lower-cased when they are inserted. A code stored with a capital letter can never be found (`Locale.LanguageCodeHasNoCapital`).

## Model

| member | source | states |
|---|---|---|
| `Locale.Strchr` | src/ibusutil.c:178 | the index found holds `_` and no earlier character is `_`; no index means no `_` at all |
| `Locale.LanguagePart` | src/ibusutil.c:178-181 | the cut prefix has no `_`, is a prefix of the locale, and is either the whole locale or stops at a `_` |
| `Locale.LanguageCode` | src/ibusutil.c:178-182 | the lookup key is no longer than the locale, holds no `_` and no ASCII capital |
| `Locale.AsciiLower` | src/ibusutil.c:182 | same length, each character folded by the ASCII-only rule |
| `Locale.LanguageCodeShape` | src/ibusutil.c:178-182 | the key is the lower-cased text before the first `_`, or the whole locale lower-cased when there is no `_` |
| `Locale.StrchrAsciiLower` | src/ibusutil.c:178-182 | folding case does not move the first `_` |
| `Locale.LanguagePartAsciiLower` | src/ibusutil.c:178-182 | cutting then folding equals folding then cutting |
| `Locale.LanguageCodeIgnoresCase` | src/ibusutil.c:182 | locales equal up to ASCII case give the same key |
| `Locale.AsciiLowerIdempotent` | src/ibusutil.c:182 | folding twice is folding once |
| `Locale.LanguageCodeHasNoCapital` | src/ibusutil.c:182-184 | no lookup key equals a stored code that contains an ASCII capital |
| `Locale.Split` | ibus/lang.py:35 | at least one piece, and no piece contains the separator |
| `Locale.SplitJoin` | ibus/lang.py:35 | joining the pieces of a split with the separator gives back the string |
| `Locale.SplitHeadIsLanguagePart` | ibus/lang.py:35 | `split("_")[0]` is the prefix that C's `strchr`/`g_strndup` cut |
| `IsoCodes.GetDetail` | src/ibusutil.c:43-56 | yields a value exactly when the member is present and holds a string, and that value is the string (an empty string included) |
| `IsoCodes.RecordMap` | src/ibusutil.c:68-89 | a non-object or nameless record adds nothing; a named one maps exactly its present codes, at most two, all to its name |
| `IsoCodes.RecordMapByCodes` | src/ibusutil.c:76-89 | a named record's entries are the alpha_3 entry joined with the alpha_2 entry |
| `IsoCodes.InsertLanguage` | src/ibusutil.c:58-94 | one element's insertion: a non-object or nameless record leaves the table as it was; otherwise no key is lost and the only keys added are the record's codes |
| `IsoCodes.InsertLanguageAddsRecordMap` | src/ibusutil.c:58-94 | `languages_foreach` overwrites the table with the record's entries and keeps every other key |
| `IsoCodes.InsertLanguages` | src/ibusutil.c:125 | every element in array order; no entry already in the table is ever removed |
| `IsoCodes.InsertLanguagesLastWins` | src/ibusutil.c:125 | after the array, a code maps to the name of the last record carrying it, and keeps its old entry only if no record carries it |
| `IsoCodes.InsertLanguagesAppend` | src/ibusutil.c:125 | records are applied in array order: `a + b` is `a` then `b` |
| `IsoCodes.SkippedRecordHasNoEffect` | src/ibusutil.c:68-72 | a non-object or nameless record changes nothing wherever it stands in the array |
| `IsoCodes.LanguageArray` | src/ibusutil.c:106-123 | records are found exactly when the root is an object whose `"639-3"` member is an array, and they are that array's elements |
| `IsoCodes.ParsedTable` | src/ibusutil.c:96-128 | a document that fails the gate leaves the table as it was |
| `IsoCodes.LoadedTable` | src/ibusutil.c:143-166 | a missing or unparsable file, or a document failing the gate, gives an empty table |
| `IsoCodes.UntranslatedName` | src/ibusutil.c:184-189 | the answer is a stored name or `"Other"`: lookup is total |
| `IsoCodes.UntranslatedNameIgnoresCase` | src/ibusutil.c:178-189 | `"JA"` and `"ja"` get the same answer |
| `IsoCodes.LoadedLookup` | src/ibusutil.c:169-190 | for a document passing the gate, a locale gets the name of the last record carrying its key, else `"Other"` |
| `IsoCodes.FailedLoadFallsBack` | src/ibusutil.c:148-163 | after a failed load every locale gets exactly `"Other"` |
| `IsoCodes.CatalogFor` | src/ibusutil.c:198-201 | exactly the `"Other"` answer goes to the application catalog; every other answer goes to `iso_639-3` |
| `IsoCodes.LanguageName` | src/ibusutil.c:192-205 | without NLS the untranslated answer is returned unchanged; with NLS it is `dgettext` of that answer in its catalog |
| `IsoCodes.LanguageNameOnCatalogMiss` | src/ibusutil.c:197-204 | when no catalog has a translation, the translated variant equals the untranslated one |
| `IbusUtil.LanguageRegistry.constructor` | src/ibusutil.c:41 | the table starts out not created and empty |
| `IbusUtil.LanguageRegistry.ForeachLanguage` | src/ibusutil.c:58-94 | on a table `_load_lang` has created, the in-place insertion leaves the table that `InsertLanguage` describes |
| `IbusUtil.LanguageRegistry.ParseJson` | src/ibusutil.c:96-128 | on a created table, returns TRUE exactly when the gate passes; the loop over the array leaves the table that `ParsedTable` describes |
| `IbusUtil.LanguageRegistry.LoadLang` | src/ibusutil.c:130-167 | the table is created, and then holds exactly `LoadedTable` of what the file holds |
| `IbusUtil.LanguageRegistry.GetUntranslatedLanguageName` | src/ibusutil.c:169-190 | loads only when the table was not created; otherwise the table is unchanged; the answer is the lookup on the table |
| `IbusUtil.LanguageRegistry.GetLanguageName` | src/ibusutil.c:192-205 | the same load-once rule, with the translated answer |
| `IbusUtil.FirstLoadWins` | src/ibusutil.c:176-177 | two lookups both answer from the table of the first call's file; a missing file at the first call means `"Other"` for good |
| `Lang.Load` | ibus/lang.py:45-59 | a missing file gives an empty dictionary; a file that does not parse raises |
| `Lang.LoadLang` | ibus/lang.py:45-59 | the loop over records and attribute names gives exactly `Load`, raising where Python raises |
| `Lang.Records` | ibus/lang.py:51-52 | a root that is not a dict raises TypeError and a missing `"639-3"` raises KeyError; records are found exactly for a list, an empty dict or an empty string, and the last two give no records; a non-empty dict or string, or a scalar, raises TypeError |
| `Lang.RecordsAgreeWithGate` | ibus/lang.py:51-52 | where the C gate passes, Python iterates the same array; where Python finds records but the gate fails, there are none |
| `Lang.InsertAttrs` | ibus/lang.py:54-57 | the attribute loop raises only TypeError (an unhashable code); on success no key is lost, and every entry either maps to the record's name or is unchanged |
| `Lang.InsertLanguage` | ibus/lang.py:53-57 | a non-dict record raises TypeError, a record without `name` raises KeyError; on success no key is lost |
| `Lang.InsertLanguages` | ibus/lang.py:52-57 | the record loop raises only TypeError or KeyError(`name`); on success no key is lost |
| `Lang.InsertLanguageOk` | ibus/lang.py:52-57 | an accepted record is an object with a `name`, and adds exactly its string codes, each mapped to that name |
| `Lang.InsertLanguagesAppend` | ibus/lang.py:52 | records are processed in list order, and an exception stops the loop |
| `Lang.LastRecordWins` | ibus/lang.py:52-57 | a code carried by the last record maps to that record's name |
| `Lang.LookupKeyAgreesWithC` | ibus/lang.py:35-36 | `split("_")[0].lower()` is the C lookup key |
| `Lang.LookupKey` | ibus/lang.py:35-36 | the key holds no `_` and no ASCII capital |
| `Lang.GetLanguageName` | ibus/lang.py:34-43 | a stored string name is translated in `iso_639-3`; an absent key gives `"Other"` translated twice in `ibus` |
| `Lang.GetLanguageNameIgnoresCase` | ibus/lang.py:36 | `"JA"` and `"ja"` get the same answer |
| `Lang.MissingFileFallsBack` | ibus/lang.py:49 | without the data file every locale gets the translated `"Other"` |
| `Lang.AgreeInsertLanguages` | ibus/lang.py:52-57 | running C's and Python's loops over the same records keeps the two tables in agreement |
| `Lang.LoadAgreesWithC` | ibus/lang.py:45-59 | when the import succeeds and every stored name is a string, the C table equals the Python dictionary |
| `Lang.GetLanguageNameAgreesWithC` | ibus/lang.py:34-43 | with catalogs that have no translations, C and Python give every locale the same name |
| `Lang.OtherNamedRecordCatalogs` | ibus/lang.py:37-39 | a record named `"Other"` is translated in `iso_639-3` by Python but in the application catalog by C |

## Left out

- File-system access is not modelled: `g_stat`, `os.path.isfile`, `open`, and building the install path. Instead, `Document` says whether the file was missing, unparsable, or parsed. An empty file counts as unparsable. In C it then leaves the table empty, as a NULL root would; in Python `json.load` raises on it.
- JSON text parsing (json-glib, Python's `json`) is not modelled. Object members are a map, so a repeated key keeps one value.
- The model assumes json-glib's behaviour for one case: a number or boolean member counts as a value node, but its string is NULL. It therefore gives no detail.
- gettext is a function parameter `dgettext(domain, msgid)`. `bindtextdomain` is not modelled, and `GETTEXT_PACKAGE` is the parameter `appDomain`.
- `ibus_g_variant_get_child_string` is not part of this model. It frees one string and calls GLib's GVariant accessor, and has no logic of its own.
- Memory ownership (`g_strdup`, `g_free`), `g_warning`, the Python error `print`, and the `__main__` demonstration are not modelled.
- The `languages == NULL` test after `json_node_get_array` has no counterpart. An array node always holds an array here.
- The lazy initialisation is not synchronised in the source. Only single-threaded use is modelled.
- Lower-casing is ASCII only, for both implementations. C uses `g_ascii_strdown`. Python 2's `str.lower` on byte strings does the same in the C locale. Unicode case folding is not modelled.
- C strings end at NUL, but the model treats NUL as an ordinary character. Only NUL-free locales correspond to C strings. For a locale with an embedded NUL, the model's key runs past the NUL, while C's `strchr` and `g_strdup` stop there.
- `Lang` dictionary keys: Python also stores number, boolean and null codes as keys. The model drops them, because no string lookup can reach them.
- `Lang.Load`: when an exception stops the loop, the partly filled dictionary is not modelled. The import fails, so that dictionary is never used.
- `Lang.LoadAgreesWithC` is stated only for successful imports that store string names. If a later record has a non-string name, Python stores it and C skips it. The two tables then differ on those codes.
- `Lang.GetLanguageName` returns a non-string name unchanged, reading `dgettext` as the identity on a message it cannot look up. That holds when no iso_639-3 catalog is installed. With one installed, Python 2's `GNUTranslations.gettext` raises TypeError on an object or array name.
