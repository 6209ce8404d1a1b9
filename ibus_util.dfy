/**
 * The process-wide registry of src/ibusutil.c as an object: `created`
 * stands for `__languages_dict != NULL` and `languages` for the hash table's
 * contents. Each method does in place what the functions of IsoCodes
 * describe, and says so in its postcondition.
 */
module IbusUtil {
  import opened JsonDoc
  import opened Locale
  import opened IsoCodes

  class LanguageRegistry {
    /** Whether `__languages_dict` has been created (it is never freed). */
    var created: bool
    /** The entries of `__languages_dict`. */
    var languages: Table

    /** A table that has not been created holds nothing. */
    ghost predicate Valid()
      reads this
    {
      !created ==> languages == map[]
    }

    /** The static `__languages_dict` starts out NULL. */
    constructor ()
      ensures Valid() && !created
    {
      created := false;
      languages := map[];
    }

    /**
     * `languages_foreach`: add one array element's entries, alpha_3 first,
     * then alpha_2, to the table `_load_lang` has already created.
     */
    method ForeachLanguage(element: Json)
      requires created
      modifies this`languages
      ensures languages == InsertLanguage(old(languages), element)
    {
      if element.JObject? {
        var name := GetDetail(element.members, "name");
        if name.Some? {
          var alpha2 := GetDetail(element.members, "alpha_2");
          var alpha3 := GetDetail(element.members, "alpha_3");
          if alpha3.Some? {
            languages := languages[alpha3.value := name.value];
          }
          if alpha2.Some? {
            languages := languages[alpha2.value := name.value];
          }
        }
      }
    }

    /**
     * `_iso_codes_parse_json`: FALSE, with the table untouched, unless the root
     * is an object whose "639-3" member is an array; otherwise every element
     * is added in array order and the answer is TRUE.
     */
    method ParseJson(root: Json) returns (ok: bool)
      requires created
      modifies this`languages
      ensures ok <==> LanguageArray(root).Some?
      ensures languages == ParsedTable(old(languages), root)
    {
      if !root.JObject? {
        return false;
      }
      if LanguagesMember !in root.members {
        return false;
      }
      var core := root.members[LanguagesMember];
      if !core.JArray? {
        return false;
      }
      var elements := core.elements;
      for i := 0 to |elements|
        invariant InsertLanguages(languages, elements[i..]) == InsertLanguages(old(languages), elements)
      {
        assert elements[i..][1..] == elements[i + 1..];
        ForeachLanguage(elements[i]);
      }
      assert elements[|elements|..] == [];
      return true;
    }

    /**
     * `_load_lang`: create the empty table first, then give up on a missing
     * or unparsable file, else parse the document into it.
     */
    method LoadLang(doc: Document)
      modifies this
      ensures created && languages == LoadedTable(doc)
    {
      created := true;
      languages := map[];
      match doc {
        case Missing =>
          return;
        case Unparsable =>
          return;
        case Parsed(root) =>
          var _ := ParseJson(root);
      }
    }

    /**
     * `ibus_get_untranslated_language_name`: load on the first call only
     * (`doc` is what the data file holds at that moment), then look the
     * locale's code up, falling back to "Other". A load that failed is not
     * retried: once created, the table never changes.
     */
    method GetUntranslatedLanguageName(locale: string, doc: Document) returns (name: string)
      requires Valid()
      modifies this
      ensures Valid() && created
      ensures languages == if old(created) then old(languages) else LoadedTable(doc)
      ensures name == UntranslatedName(languages, locale)
    {
      if !created {
        LoadLang(doc);
      }
      var lang := AsciiLower(LanguagePart(locale));
      if lang in languages {
        name := languages[lang];
      } else {
        name := Fallback;
      }
    }

    /**
     * `ibus_get_language_name`: the untranslated name, passed through the
     * application's catalog when it is "Other" and through the iso_639-3
     * catalog otherwise; unchanged without NLS.
     */
    method GetLanguageName(locale: string, doc: Document, nls: bool, appDomain: string,
                           dgettext: (string, string) -> string) returns (name: string)
      requires Valid()
      modifies this
      ensures Valid() && created
      ensures languages == if old(created) then old(languages) else LoadedTable(doc)
      ensures name == LanguageName(languages, locale, nls, appDomain, dgettext)
    {
      var untranslated := GetUntranslatedLanguageName(locale, doc);
      if nls {
        if untranslated == Fallback {
          name := dgettext(appDomain, Fallback);
        } else {
          name := dgettext(IsoDomain, untranslated);
        }
      } else {
        name := untranslated;
      }
    }
  }

  /**
   * The table is built once per process: whatever the data file holds at a
   * later call, a second lookup answers from the table the first call
   * loaded. In particular a missing file at the first call means "Other"
   * for ever.
   */
  method FirstLoadWins(first: Document, later: Document, locale1: string, locale2: string)
    returns (name1: string, name2: string)
    ensures name1 == UntranslatedName(LoadedTable(first), locale1)
    ensures name2 == UntranslatedName(LoadedTable(first), locale2)
    ensures !first.Parsed? ==> name1 == Fallback && name2 == Fallback
  {
    var registry := new LanguageRegistry();
    name1 := registry.GetUntranslatedLanguageName(locale1, first);
    name2 := registry.GetUntranslatedLanguageName(locale2, later);
  }
}
