/**
  The puzzle languages and the choice of the starting language from the
  address bar.
 */
module Language {
  import opened Seqs
  import opened OrderedMap

  /** `SUPPORTED_LANGUAGES`: code to display name, in declaration order. */
  const SupportedLanguages: OMap<string, string> := OMap(
    ["en", "en-gb", "de", "nl", "fr", "es"],
    map["en" := "English (US)", "en-gb" := "English (UK)", "de" := "Deutsch",
        "nl" := "Nederlands", "fr" := "Français", "es" := "Español"])

  /**
    The names every plain object inherits from `Object.prototype`. The `in`
    operator finds these too, so `isLanguage` accepts them.
   */
  const InheritedNames: set<string> := {
    "constructor", "hasOwnProperty", "isPrototypeOf", "propertyIsEnumerable",
    "toLocaleString", "toString", "valueOf", "__proto__",
    "__defineGetter__", "__defineSetter__", "__lookupGetter__", "__lookupSetter__" }

  /** A value from the query string: text, or anything else. */
  datatype Value = Text(s: string) | NotText

  /** `isLanguage`: a string that is a property name of the table, own or inherited. */
  predicate IsLanguage(v: Value) {
    v.Text? && (v.s in SupportedLanguages.values || v.s in InheritedNames)
  }

  /**
    `isLanguage` accepts each of the six codes and, through `in`, the
    inherited property names; it rejects anything that is not a string, and
    it is case-sensitive.
   */
  lemma IsLanguageCases()
    ensures forall code | code in SupportedLanguages.keys :: IsLanguage(Text(code))
    ensures IsLanguage(Text("toString"))
    ensures !IsLanguage(Text("EN")) && !IsLanguage(Text("english")) && !IsLanguage(NotText)
    ensures SupportedLanguages.Valid()
  {
    assert "EN" !in InheritedNames && "english" !in InheritedNames by {
      assert "EN"[0] == 'E';
      assert "english"[0] == 'e';
    }
  }

  /** A supported code is accepted, and an accepted name is a code or an inherited name. */
  lemma IsLanguageIff(s: string)
    ensures IsLanguage(Text(s)) <==> s in Elems(SupportedLanguages.keys) || s in InheritedNames
  {
  }

  /** The default language: the query's `lang` when `isLanguage` accepts it, `en` otherwise. */
  function DefaultLanguage(query: Value): (lang: string)
    ensures IsLanguage(query) ==> lang == query.s
    ensures !IsLanguage(query) ==> lang == "en"
    ensures IsLanguage(Text(lang))
  {
    if IsLanguage(query) then query.s else "en"
  }
}
