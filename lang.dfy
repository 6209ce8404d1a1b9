/**
 * The Python registry of ibus/lang.py: `__load_lang` fills the module's
 * dictionary from the parsed data file at import time, and
 * `get_language_name` looks a locale up in it.
 *
 * Python stores whatever JSON values it finds. The dictionary is modelled
 * with string keys: a code that is a number, boolean or null is a hashable
 * key no string lookup can reach, so it is left out; a code that is an
 * object or array is unhashable and raises TypeError. Names are kept as
 * JSON values, because Python does not check that they are strings. An
 * exception during loading makes the import fail; it is the `Err` of a
 * `Result`.
 */
module Lang {
  import opened Wrappers
  import opened JsonDoc
  import opened Locale
  import IsoCodes

  /** The exceptions `__load_lang` can raise. */
  datatype PyError =
    | KeyError(key: string)   // a missing dictionary key
    | TypeError               // indexing a non-dict, iterating a non-iterable, an unhashable key
    | ValueError              // `json.load` rejects the file

  /** `__languages_dict`, restricted to its string keys. */
  type PyTable = map<string, Json>

  /** The attributes the record loop visits, in its order. */
  const AttrNames: seq<string> := ["alpha_2", "alpha_3"]
  /** The application's own message catalog, the domain of `_`. */
  const AppDomain := "ibus"

  /** `__languages_dict[attr_value] = name` for each attribute present, in `attrs` order. */
  function InsertAttrs(table: PyTable, lang: map<string, Json>, name: Json, attrs: seq<string>)
    : (r: Result<PyTable, PyError>)
    ensures r.Err? ==> r.error == TypeError
    ensures r.Ok? ==> table.Keys <= r.value.Keys
    ensures r.Ok? ==> forall code :: code in r.value ==>
      r.value[code] == name || (code in table && r.value[code] == table[code])
    decreases |attrs|
  {
    if attrs == [] then Ok(table)
    else if attrs[0] !in lang then InsertAttrs(table, lang, name, attrs[1..])
    else
      match lang[attrs[0]]
      case JString(code) => InsertAttrs(table[code := name], lang, name, attrs[1..])
      case JObject(_) => Err(TypeError)
      case JArray(_) => Err(TypeError)
      case _ => InsertAttrs(table, lang, name, attrs[1..])
  }

  /** One pass of the record loop: `lang["name"]` is read unconditionally. */
  function InsertLanguage(table: PyTable, lang: Json): (r: Result<PyTable, PyError>)
    ensures !lang.JObject? ==> r == Err(TypeError)
    ensures lang.JObject? && "name" !in lang.members ==> r == Err(KeyError("name"))
    ensures r.Ok? ==> table.Keys <= r.value.Keys
    ensures r.Err? ==> r.error == TypeError || r.error == KeyError("name")
  {
    if !lang.JObject? then Err(TypeError)
    else if "name" !in lang.members then Err(KeyError("name"))
    else InsertAttrs(table, lang.members, lang.members["name"], AttrNames)
  }

  /** The record loop over the whole list, stopping at the first exception. */
  function InsertLanguages(table: PyTable, langs: seq<Json>): (r: Result<PyTable, PyError>)
    ensures r.Ok? ==> table.Keys <= r.value.Keys
    ensures r.Err? ==> r.error == TypeError || r.error == KeyError("name")
    decreases |langs|
  {
    if langs == [] then Ok(table)
    else
      match InsertLanguage(table, langs[0])
      case Err(e) => Err(e)
      case Ok(next) => InsertLanguages(next, langs[1..])
  }

  /**
   * `iso_639_data["639-3"]` and what iterating it yields. Only a list yields
   * records; an empty dict or string yields nothing; a non-empty dict or
   * string yields strings, on which `lang["name"]` raises TypeError, as does
   * iterating a scalar.
   */
  function Records(root: Json): (r: Result<seq<Json>, PyError>)
    ensures !root.JObject? ==> r == Err(TypeError)
    ensures root.JObject? && IsoCodes.LanguagesMember !in root.members
      ==> r == Err(KeyError(IsoCodes.LanguagesMember))
    ensures r.Ok? <==>
      root.JObject? && IsoCodes.LanguagesMember in root.members
      && (root.members[IsoCodes.LanguagesMember].JArray?
          || root.members[IsoCodes.LanguagesMember] == JObject(map[])
          || root.members[IsoCodes.LanguagesMember] == JString(""))
    ensures r.Ok? && !root.members[IsoCodes.LanguagesMember].JArray? ==> r.value == []
  {
    if !root.JObject? then Err(TypeError)
    else if IsoCodes.LanguagesMember !in root.members then Err(KeyError(IsoCodes.LanguagesMember))
    else
      match root.members[IsoCodes.LanguagesMember]
      case JArray(langs) => Ok(langs)
      case JObject(m) => if m == map[] then Ok([]) else Err(TypeError)
      case JString(s) => if s == "" then Ok([]) else Err(TypeError)
      case _ => Err(TypeError)
  }

  /**
   * Where the C gate passes, Python iterates the same array; where Python
   * finds records but the C gate fails, there are none, so both tables stay
   * empty.
   */
  lemma RecordsAgreeWithGate(root: Json)
    ensures IsoCodes.LanguageArray(root).Some? ==> Records(root) == Ok(IsoCodes.LanguageArray(root).value)
    ensures Records(root).Ok? && IsoCodes.LanguageArray(root).None? ==> Records(root) == Ok([])
  {
  }

  /**
   * The dictionary `__load_lang` leaves: empty when the file does not exist,
   * an exception when it does not parse, else the record loop's outcome.
   */
  function Load(doc: Document): (r: Result<PyTable, PyError>)
    ensures doc.Missing? ==> r == Ok(map[])
    ensures doc.Unparsable? ==> r == Err(ValueError)
  {
    match doc
    case Missing => Ok(map[])
    case Unparsable => Err(ValueError)
    case Parsed(root) =>
      match Records(root)
      case Err(e) => Err(e)
      case Ok(langs) => InsertLanguages(map[], langs)
  }

  /** `__load_lang`, with its two nested loops. */
  method LoadLang(doc: Document) returns (r: Result<PyTable, PyError>)
    ensures r == Load(doc)
  {
    if !doc.Parsed? {
      if doc.Missing? {
        return Ok(map[]);
      }
      return Err(ValueError);
    }
    var records := Records(doc.root);
    if records.Err? {
      return Err(records.error);
    }
    var langs := records.value;
    var dict: PyTable := map[];
    for i := 0 to |langs|
      invariant InsertLanguages(dict, langs[i..]) == Load(doc)
    {
      assert langs[i..][1..] == langs[i + 1..];
      var lang := langs[i];
      if !lang.JObject? {
        return Err(TypeError);
      }
      if "name" !in lang.members {
        return Err(KeyError("name"));
      }
      var name := lang.members["name"];
      ghost var before := dict;
      for j := 0 to |AttrNames|
        invariant InsertAttrs(dict, lang.members, name, AttrNames[j..])
               == InsertAttrs(before, lang.members, name, AttrNames)
      {
        assert AttrNames[j..][1..] == AttrNames[j + 1..];
        var attrName := AttrNames[j];
        if attrName in lang.members {
          match lang.members[attrName] {
            case JString(code) =>
              dict := dict[code := name];
            case JObject(_) =>
              return Err(TypeError);
            case JArray(_) =>
              return Err(TypeError);
            case _ =>
          }
        }
      }
      assert AttrNames[|AttrNames|..] == [];
    }
    assert langs[|langs|..] == [];
    return Ok(dict);
  }

  /** The lookup key of `get_language_name`: `_locale.split("_")[0]`, then `.lower()`. */
  function LookupKey(locale: string): (key: string)
    ensures Separator !in key
    ensures forall i :: 0 <= i < |key| ==> !('A' <= key[i] <= 'Z')
  {
    AsciiLower(Split(locale, Separator)[0])
  }

  /** The Python key is the C key: `split("_")[0]` cuts where `strchr` does. */
  lemma LookupKeyAgreesWithC(locale: string)
    ensures LookupKey(locale) == LanguageCode(locale)
  {
    SplitHeadIsLanguagePart(locale);
  }

  /**
   * `get_language_name`: a stored name is translated in the iso_639-3
   * catalog; an absent key gives "Other", translated twice in the
   * application's catalog. A name that is not a string is returned as it
   * is: this reads `dgettext` as the identity on a message it cannot look up,
   * which holds when no iso_639-3 catalog is installed; with one installed,
   * Python raises TypeError on an object or array name.
   */
  function GetLanguageName(table: PyTable, locale: string, dgettext: (string, string) -> string)
    : (r: Json)
    ensures LookupKey(locale) in table ==>
      r == match table[LookupKey(locale)]
           case JString(name) => JString(dgettext(IsoCodes.IsoDomain, name))
           case other => other
    ensures LookupKey(locale) !in table ==>
      r == JString(dgettext(AppDomain, dgettext(AppDomain, IsoCodes.Fallback)))
  {
    var lang := LookupKey(locale);
    if lang in table then
      match table[lang]
      case JString(name) => JString(dgettext(IsoCodes.IsoDomain, name))
      case other => other
    else
      JString(dgettext(AppDomain, dgettext(AppDomain, IsoCodes.Fallback)))
  }

  /** "JA" and "ja" give the same answer. */
  lemma GetLanguageNameIgnoresCase(table: PyTable, a: string, b: string,
                                   dgettext: (string, string) -> string)
    requires AsciiLower(a) == AsciiLower(b)
    ensures GetLanguageName(table, a, dgettext) == GetLanguageName(table, b, dgettext)
  {
    LookupKeyAgreesWithC(a);
    LookupKeyAgreesWithC(b);
    LanguageCodeIgnoresCase(a, b);
  }

  /** Without a data file every locale gets the translated "Other". */
  lemma MissingFileFallsBack(locale: string, dgettext: (string, string) -> string)
    ensures Load(Missing).Ok?
    ensures GetLanguageName(Load(Missing).value, locale, dgettext)
         == JString(dgettext(AppDomain, dgettext(AppDomain, IsoCodes.Fallback)))
  {
  }

  /** The record loop over `a + b` is the loop over `a`, then over `b`. */
  lemma {:induction false} InsertLanguagesAppend(table: PyTable, a: seq<Json>, b: seq<Json>)
    ensures InsertLanguages(table, a + b) ==
      match InsertLanguages(table, a)
      case Err(e) => Err(e)
      case Ok(next) => InsertLanguages(next, b)
    decreases |a|
  {
    if a == [] {
      assert a + b == b;
    } else {
      assert (a + b)[1..] == a[1..] + b;
      match InsertLanguage(table, a[0])
      case Err(_) =>
      case Ok(next) => InsertLanguagesAppend(next, a[1..], b);
    }
  }

  /**
   * A record the loop accepts is an object with a `name`, and adds exactly
   * its string codes, each mapped to that name.
   */
  lemma InsertLanguageOk(table: PyTable, lang: Json)
    requires InsertLanguage(table, lang).Ok?
    ensures lang.JObject? && "name" in lang.members
    ensures InsertLanguage(table, lang).value ==
      table + map code | code in IsoCodes.RecordCodes(lang) :: lang.members["name"]
  {
    var m := lang.members;
    var name := m["name"];
    var codes := IsoCodes.RecordCodes(lang);
    var a2 := IsoCodes.GetDetail(m, "alpha_2");
    var a3 := IsoCodes.GetDetail(m, "alpha_3");
    assert AttrNames[1..] == ["alpha_3"];
    assert AttrNames[1..][1..] == [];
    var after2 := if a2.Some? then table[a2.value := name] else table;
    assert InsertAttrs(table, m, name, AttrNames) == InsertAttrs(after2, m, name, ["alpha_3"]);
    var after3 := if a3.Some? then after2[a3.value := name] else after2;
    assert InsertAttrs(after2, m, name, ["alpha_3"]) == Ok(after3);
  }

  /**
   * Last write wins: when the last record of a successful loop carries a
   * string code, the code maps to that record's name.
   */
  lemma LastRecordWins(table: PyTable, langs: seq<Json>, code: string)
    requires |langs| > 0 && InsertLanguages(table, langs).Ok?
    requires code in IsoCodes.RecordCodes(langs[|langs| - 1])
    ensures langs[|langs| - 1].JObject? && "name" in langs[|langs| - 1].members
    ensures code in InsertLanguages(table, langs).value
    ensures InsertLanguages(table, langs).value[code] == langs[|langs| - 1].members["name"]
  {
    var front, last := langs[..|langs| - 1], langs[|langs| - 1];
    assert langs == front + [last];
    InsertLanguagesAppend(table, front, [last]);
    var next := InsertLanguages(table, front).value;
    assert [last][1..] == [];
    InsertLanguageOk(next, last);
  }

  /** The string-valued part of the Python dictionary. */
  function Names(table: PyTable): IsoCodes.Table {
    map code | code in table && table[code].JString? :: table[code].text
  }

  /**
   * How the C table and the Python dictionary relate while both loops run
   * over the same records: every string name Python holds, C holds too, and
   * C holds no code Python lacks. (Python may hold a non-string name where C
   * kept an earlier one or none.)
   */
  ghost predicate Agree(ctable: IsoCodes.Table, ptable: PyTable) {
    && (forall code :: code in ptable && ptable[code].JString? ==>
          code in ctable && ctable[code] == ptable[code].text)
    && (forall code :: code in ctable ==> code in ptable)
  }

  lemma {:induction false} AgreeInsertLanguages(ctable: IsoCodes.Table, ptable: PyTable, langs: seq<Json>)
    requires Agree(ctable, ptable)
    requires InsertLanguages(ptable, langs).Ok?
    ensures Agree(IsoCodes.InsertLanguages(ctable, langs), InsertLanguages(ptable, langs).value)
    decreases |langs|
  {
    if langs != [] {
      var lang := langs[0];
      InsertLanguageOk(ptable, lang);
      var pnext := InsertLanguage(ptable, lang).value;
      var cnext := IsoCodes.InsertLanguage(ctable, lang);
      IsoCodes.InsertLanguageAddsRecordMap(ctable, lang);
      assert Agree(cnext, pnext) by {
        var name := lang.members["name"];
        var codes := IsoCodes.RecordCodes(lang);
        if !name.JString? {
          assert IsoCodes.RecordName(lang).None?;
          assert cnext == ctable;
        } else {
          assert IsoCodes.RecordName(lang) == Some(name.text);
          assert IsoCodes.RecordMap(lang) == map code | code in codes :: name.text;
        }
      }
      AgreeInsertLanguages(cnext, pnext, langs[1..]);
    }
  }

  /**
   * The two implementations build the same table: when the Python import
   * succeeds and every name it stored is a string, the C loader's table is
   * exactly the Python dictionary. (C's alpha_3-then-alpha_2 order and
   * Python's alpha_2-then-alpha_3 order cannot differ, since both codes of a
   * record map to one name.)
   */
  lemma LoadAgreesWithC(doc: Document)
    requires Load(doc).Ok?
    requires forall code :: code in Load(doc).value ==> Load(doc).value[code].JString?
    ensures IsoCodes.LoadedTable(doc) == Names(Load(doc).value)
  {
    if doc.Parsed? {
      var langs := Records(doc.root).value;
      var core := doc.root.members[IsoCodes.LanguagesMember];
      if core.JArray? {
        AgreeInsertLanguages(map[], map[], langs);
      } else {
        assert langs == [];
      }
    }
  }

  /**
   * With catalogs that have no translations, both implementations give
   * every locale the same name. With real catalogs they need not: see
   * OtherNamedRecordCatalogs, and Python translates the fallback twice.
   */
  lemma GetLanguageNameAgreesWithC(doc: Document, locale: string)
    requires Load(doc).Ok?
    requires forall code :: code in Load(doc).value ==> Load(doc).value[code].JString?
    ensures GetLanguageName(Load(doc).value, locale, (domain, msgid) => msgid)
         == JString(IsoCodes.UntranslatedName(IsoCodes.LoadedTable(doc), locale))
  {
    LoadAgreesWithC(doc);
    LookupKeyAgreesWithC(locale);
  }

  /**
   * A record whose name is literally "Other" is translated in different
   * catalogs: C compares the untranslated answer with "Other" and sends it
   * to the application's catalog, Python finds the key and sends the name
   * to the iso_639-3 catalog.
   */
  lemma OtherNamedRecordCatalogs(table: PyTable, locale: string, dgettext: (string, string) -> string)
    requires LookupKey(locale) in table && table[LookupKey(locale)] == JString(IsoCodes.Fallback)
    ensures GetLanguageName(table, locale, dgettext)
         == JString(dgettext(IsoCodes.IsoDomain, IsoCodes.Fallback))
    ensures IsoCodes.LanguageName(Names(table), locale, true, AppDomain, dgettext)
         == dgettext(AppDomain, IsoCodes.Fallback)
  {
    LookupKeyAgreesWithC(locale);
  }
}
