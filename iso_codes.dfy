/**
 * The language-name registry of src/ibusutil.c as values: what one ISO 639-3
 * record adds to the code-to-name table, how the array of records fills it,
 * the schema gate on the parsed document, and the lookup with its "Other"
 * fallback. The class in ibus_util.dfy performs these steps in place and is
 * proved to match them.
 */
module IsoCodes {
  import opened Wrappers
  import opened JsonDoc
  import opened Locale

  /** `__languages_dict`: ISO 639 code to language name. */
  type Table = map<string, string>

  /** The member of the root object that holds the records. */
  const LanguagesMember := "639-3"
  /** The name returned for a code the table does not hold. */
  const Fallback := "Other"
  /** The message catalog of the data set's own translations. */
  const IsoDomain := "iso_639-3"

  /** `json_node_get_string`: the text of a string value, nothing for any other node. */
  function StringValue(node: Json): Option<string> {
    match node
    case JString(s) => Some(s)
    case _ => None
  }

  /**
   * `get_detail_from_object`: a member yields a copy of its string when it is
   * present and holds a string value; an absent member, a non-value node, or
   * a number or boolean value yields NULL. An empty string is present.
   */
  function GetDetail(obj: map<string, Json>, member: string): (r: Option<string>)
    ensures r.Some? <==> member in obj && obj[member].JString?
    ensures r.Some? ==> obj[member] == JString(r.value)
  {
    if member in obj && obj[member].HoldsValue() then StringValue(obj[member]) else None
  }

  /** The `name` of a record, when the record is an object that has one. */
  function RecordName(element: Json): Option<string> {
    if element.JObject? then GetDetail(element.members, "name") else None
  }

  /** The codes a record carries: its `alpha_2` and `alpha_3` where present. */
  function RecordCodes(element: Json): set<string> {
    if !element.JObject? then {}
    else
      var a2 := GetDetail(element.members, "alpha_2");
      var a3 := GetDetail(element.members, "alpha_3");
      (if a2.Some? then {a2.value} else {}) + (if a3.Some? then {a3.value} else {})
  }

  /**
   * The entries one record contributes, independent of insertion order:
   * every code it carries maps to its name; a record that is not an object,
   * or has no name, contributes none.
   */
  function RecordMap(element: Json): (m: Table)
    ensures RecordName(element).None? ==> m == map[]
    ensures RecordName(element).Some? ==> m.Keys == RecordCodes(element)
    ensures forall k :: k in m ==> Some(m[k]) == RecordName(element)
    ensures |m| <= 2
  {
    match RecordName(element)
    case None => map[]
    case Some(name) =>
      var m := map k | k in RecordCodes(element) :: name;
      assert m.Keys == RecordCodes(element);
      CodesAtMostTwo(element);
      m
  }

  lemma CodesAtMostTwo(element: Json)
    ensures |RecordCodes(element)| <= 2
  {
    if element.JObject? {
      var a2 := GetDetail(element.members, "alpha_2");
      var a3 := GetDetail(element.members, "alpha_3");
      if a2.Some? && a3.Some? && a2.value != a3.value {
        assert RecordCodes(element) == {a2.value, a3.value};
      }
    }
  }

  /** `g_hash_table_insert (__languages_dict, code, name)` for a detail that is present. */
  function InsertDetail(table: Table, detail: Option<string>, name: string): Table {
    match detail
    case Some(code) => table[code := name]
    case None => table
  }

  /**
   * `languages_foreach` for one array element, in the C order: skip
   * non-objects and nameless records, insert `alpha_3 -> name`, then
   * `alpha_2 -> name`, each only when present, replacing an earlier entry.
   */
  function InsertLanguage(table: Table, element: Json): (t: Table)
    ensures RecordName(element).None? ==> t == table
    ensures table.Keys <= t.Keys
    ensures t.Keys <= table.Keys + RecordCodes(element)
  {
    if !element.JObject? then table
    else
      match GetDetail(element.members, "name")
      case None => table
      case Some(name) =>
        var afterAlpha3 := InsertDetail(table, GetDetail(element.members, "alpha_3"), name);
        InsertDetail(afterAlpha3, GetDetail(element.members, "alpha_2"), name)
  }

  /** The entry a present detail contributes. */
  function DetailMap(detail: Option<string>, name: string): Table {
    if detail.Some? then map[detail.value := name] else map[]
  }

  /** RecordMap is the union of the two codes' entries, in either order. */
  lemma RecordMapByCodes(element: Json)
    requires RecordName(element).Some?
    ensures RecordMap(element) ==
      DetailMap(GetDetail(element.members, "alpha_3"), RecordName(element).value)
      + DetailMap(GetDetail(element.members, "alpha_2"), RecordName(element).value)
  {
    var n := RecordName(element).value;
    var from3 := DetailMap(GetDetail(element.members, "alpha_3"), n);
    var from2 := DetailMap(GetDetail(element.members, "alpha_2"), n);
    assert RecordMap(element).Keys == (from3 + from2).Keys;
  }

  /** One insertion overwrites the table with the detail's entry. */
  lemma InsertDetailAdds(table: Table, detail: Option<string>, name: string)
    ensures InsertDetail(table, detail, name) == table + DetailMap(detail, name)
  {
  }

  /** Map union is associative. */
  lemma UnionAssoc(a: Table, b: Table, c: Table)
    ensures a + b + c == a + (b + c)
  {
  }

  /**
   * Whatever the order of the two insertions, one record's effect is to
   * overwrite the table with the entries of RecordMap.
   */
  lemma InsertLanguageAddsRecordMap(table: Table, element: Json)
    ensures InsertLanguage(table, element) == table + RecordMap(element)
  {
    if RecordName(element).Some? {
      RecordMapByCodes(element);
      var n := RecordName(element).value;
      var d3 := GetDetail(element.members, "alpha_3");
      var d2 := GetDetail(element.members, "alpha_2");
      var afterAlpha3 := InsertDetail(table, d3, n);
      InsertDetailAdds(table, d3, n);
      InsertDetailAdds(afterAlpha3, d2, n);
      UnionAssoc(table, DetailMap(d3, n), DetailMap(d2, n));
    }
  }

  /** `json_array_foreach_element` with `languages_foreach`: every element, in array order. */
  function InsertLanguages(table: Table, elements: seq<Json>): (t: Table)
    ensures table.Keys <= t.Keys
    decreases |elements|
  {
    if elements == [] then table
    else InsertLanguages(InsertLanguage(table, elements[0]), elements[1..])
  }

  /** The name the last record carrying `code` gives it, scanning the whole array. */
  function LastName(elements: seq<Json>, code: string): Option<string> {
    if elements == [] then None
    else
      match LastName(elements[1..], code)
      case Some(n) => Some(n)
      case None =>
        var m := RecordMap(elements[0]);
        if code in m then Some(m[code]) else None
  }

  /**
   * Last write wins: after the whole array a code maps to the name of the
   * last record that carries it, and keeps its earlier entry only when no
   * record carries it.
   */
  lemma {:induction false} InsertLanguagesLastWins(table: Table, elements: seq<Json>, code: string)
    ensures code in InsertLanguages(table, elements) <==> LastName(elements, code).Some? || code in table
    ensures code in InsertLanguages(table, elements) ==>
      InsertLanguages(table, elements)[code] ==
        if LastName(elements, code).Some? then LastName(elements, code).value else table[code]
    decreases |elements|
  {
    if elements != [] {
      InsertLanguageAddsRecordMap(table, elements[0]);
      InsertLanguagesLastWins(InsertLanguage(table, elements[0]), elements[1..], code);
    }
  }

  /** Records are applied in array order: the table after `a + b` is the table after `a`, then `b`. */
  lemma {:induction false} InsertLanguagesAppend(table: Table, a: seq<Json>, b: seq<Json>)
    ensures InsertLanguages(table, a + b) == InsertLanguages(InsertLanguages(table, a), b)
    decreases |a|
  {
    if a == [] {
      assert a + b == b;
    } else {
      assert (a + b)[1..] == a[1..] + b;
      InsertLanguagesAppend(InsertLanguage(table, a[0]), a[1..], b);
    }
  }

  /** A record that is not an object, or has no name, changes nothing wherever it stands. */
  lemma SkippedRecordHasNoEffect(table: Table, a: seq<Json>, element: Json, b: seq<Json>)
    requires RecordName(element).None?
    ensures InsertLanguages(table, a + [element] + b) == InsertLanguages(table, a + b)
  {
    InsertLanguagesAppend(table, a + [element], b);
    InsertLanguagesAppend(table, a, [element]);
    InsertLanguagesAppend(table, a, b);
    assert InsertLanguages(InsertLanguages(table, a), [element]) == InsertLanguages(table, a);
  }

  /**
   * The schema gate of `_iso_codes_parse_json`: the records, when the root is
   * an object whose "639-3" member is an array.
   */
  function LanguageArray(root: Json): (r: Option<seq<Json>>)
    ensures r.Some? <==>
      root.JObject? && LanguagesMember in root.members && root.members[LanguagesMember].JArray?
    ensures r.Some? ==> root.members[LanguagesMember] == JArray(r.value)
  {
    if !root.JObject? then None
    else if LanguagesMember !in root.members then None
    else
      match root.members[LanguagesMember]
      case JArray(elements) => Some(elements)
      case _ => None
  }

  /** What `_iso_codes_parse_json` leaves in a table: nothing added unless the gate passes. */
  function ParsedTable(table: Table, root: Json): (t: Table)
    ensures LanguageArray(root).None? ==> t == table
  {
    match LanguageArray(root)
    case None => table
    case Some(elements) => InsertLanguages(table, elements)
  }

  /**
   * The table `_load_lang` builds from what it finds: a fresh empty table,
   * filled only from a parsed document that passes the gate.
   */
  function LoadedTable(doc: Document): (t: Table)
    ensures !doc.Parsed? ==> t == map[]
    ensures doc.Parsed? && LanguageArray(doc.root).None? ==> t == map[]
  {
    match doc
    case Parsed(root) => ParsedTable(map[], root)
    case _ => map[]
  }

  /**
   * `ibus_get_untranslated_language_name` once the table is loaded: the name
   * stored under the locale's code, else "Other". Always a string.
   */
  function UntranslatedName(table: Table, locale: string): (r: string)
    ensures r == Fallback || r in table.Values
  {
    var code := LanguageCode(locale);
    if code in table then table[code] else Fallback
  }

  /** "JA" and "ja" (or "Ja_JP" and "ja_jp") get the same answer. */
  lemma UntranslatedNameIgnoresCase(table: Table, a: string, b: string)
    requires AsciiLower(a) == AsciiLower(b)
    ensures UntranslatedName(table, a) == UntranslatedName(table, b)
  {
    LanguageCodeIgnoresCase(a, b);
  }

  /**
   * End to end: for a document that passes the gate, a locale gets the name
   * of the last record carrying its code, and "Other" when none does.
   */
  lemma LoadedLookup(root: Json, locale: string)
    requires LanguageArray(root).Some?
    ensures UntranslatedName(LoadedTable(Parsed(root)), locale) ==
      match LastName(LanguageArray(root).value, LanguageCode(locale))
      case Some(name) => name
      case None => Fallback
  {
    InsertLanguagesLastWins(map[], LanguageArray(root).value, LanguageCode(locale));
  }

  /**
   * A missing or unparsable file, or a document failing the gate, leaves a
   * table on which every locale gets exactly "Other".
   */
  lemma FailedLoadFallsBack(doc: Document, locale: string)
    requires !doc.Parsed? || LanguageArray(doc.root).None?
    ensures UntranslatedName(LoadedTable(doc), locale) == Fallback
  {
  }

  /**
   * The catalog `ibus_get_language_name` consults: the application's own for
   * exactly the "Other" result, the data set's for every other name.
   */
  function CatalogFor(untranslated: string, appDomain: string): (domain: string)
    ensures untranslated == Fallback ==> domain == appDomain
    ensures untranslated != Fallback ==> domain == IsoDomain
  {
    if untranslated == Fallback then appDomain else IsoDomain
  }

  /**
   * `ibus_get_language_name`: the untranslated result passed through
   * `dgettext` of its catalog, or unchanged when built without NLS.
   */
  function LanguageName(table: Table, locale: string, nls: bool, appDomain: string,
                        dgettext: (string, string) -> string): (r: string)
    ensures !nls ==> r == UntranslatedName(table, locale)
    ensures nls ==> r == dgettext(CatalogFor(UntranslatedName(table, locale), appDomain),
                                  UntranslatedName(table, locale))
  {
    var untranslated := UntranslatedName(table, locale);
    if nls then dgettext(CatalogFor(untranslated, appDomain), untranslated) else untranslated
  }

  /** When neither catalog has a translation (`dgettext` returns its msgid), translation changes nothing. */
  lemma LanguageNameOnCatalogMiss(table: Table, locale: string, nls: bool, appDomain: string,
                                  dgettext: (string, string) -> string)
    requires forall domain, msgid :: dgettext(domain, msgid) == msgid
    ensures LanguageName(table, locale, nls, appDomain, dgettext) == UntranslatedName(table, locale)
  {
  }
}
