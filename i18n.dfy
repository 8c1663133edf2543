/** The translation lookup of `src/py_opencommit/i18n/__init__.py`: a cache
    from language codes to translation tables, a "current language", and
    the alias table for language names.

    The JSON files next to the module are a fixed function from a language
    code to what reading `<language>.json` gives. The `PYOC_LANGUAGE`
    environment variable is a parameter. */
module I18n {
  import opened Strings

  /** One translation file: message keys to texts. */
  type Table = map<string, string>

  /** Reading `<language>.json`: a table, no such file, or a file that
      cannot be opened or parsed. */
  datatype LoadOutcome = Loaded(table: Table) | Missing | Broken

  /** The translation files, by language code. */
  type Files = string -> LoadOutcome

  const English: string := "en"

  /** The module-level state: `_translations` and `_current_language`. */
  datatype Cache = Cache(translations: map<string, Table>, current: string)

  /** The state at import time. */
  const Initial: Cache := Cache(map[], English)

  /** What `load_translations` gives: the table it returns, the new state,
      and the languages whose files it looked up, in order. */
  datatype Loading = Loading(table: Table, cache: Cache, consulted: seq<string>)

  // ---------------------------------------------------------------------
  // load_translations

  /** `load_translations(language)`: a cached language is returned without
      touching the files; a missing file for another language than English
      falls back to English; a file that loads is cached and becomes current;
      any other failure returns an empty table and changes nothing. */
  function Load(files: Files, cache: Cache, language: string): (r: Loading)
    ensures language in cache.translations ==>
      r.consulted == [] && r.table == cache.translations[language] && r.cache.current == language
    ensures forall l :: l in cache.translations ==>
      l in r.cache.translations && r.cache.translations[l] == cache.translations[l]
    ensures forall l :: l in r.cache.translations && l !in cache.translations ==>
      (l == language || l == English) && files(l) == Loaded(r.cache.translations[l])
    ensures r.cache.current == cache.current || r.cache.current in r.cache.translations
    decreases if language == English then 0 else 1
  {
    if language in cache.translations then
      Loading(cache.translations[language], Cache(cache.translations, language), [])
    else
      match files(language)
      case Loaded(t) => Loading(t, Cache(cache.translations[language := t], language), [language])
      case Broken => Loading(map[], cache, [language])
      case Missing =>
        if language != English then
          var r := Load(files, cache, English);
          Loading(r.table, r.cache, [language] + r.consulted)
        else Loading(map[], cache, [language])
  }

  /** The cache holds nothing but what the files say. */
  ghost predicate Agrees(files: Files, cache: Cache) {
    forall l :: l in cache.translations ==> files(l) == Loaded(cache.translations[l])
  }

  /** The current language is English or a cached one. */
  ghost predicate CurrentKnown(cache: Cache) {
    cache.current == English || cache.current in cache.translations
  }

  /** The table a language gets when read straight from the files, with the
      English fallback for a missing file. */
  function Direct(files: Files, language: string): Table {
    match files(language)
    case Loaded(t) => t
    case Broken => map[]
    case Missing =>
      if language != English && files(English).Loaded? then files(English).table else map[]
  }

  /** The cache is invisible: with a cache that agrees with the files,
      `load_translations` returns what reading the files directly would, and
      the new cache still agrees with the files and knows its current language. */
  lemma LoadIsDirect(files: Files, cache: Cache, language: string)
    requires Agrees(files, cache) && CurrentKnown(cache)
    ensures var r := Load(files, cache, language);
      && r.table == Direct(files, language)
      && Agrees(files, r.cache) && CurrentKnown(r.cache)
  {
    var r := Load(files, cache, language);
    if language !in cache.translations && files(language).Missing? && language != English {
      assert r.table == Load(files, cache, English).table;
      if English in cache.translations {
        assert files(English) == Loaded(cache.translations[English]);
      }
    }
  }

  /** A language that is cached, or whose file loads, is cached afterwards;
      loading it again reads no file and returns the same table. */
  lemma LoadTwice(files: Files, cache: Cache, language: string)
    requires language in cache.translations || files(language).Loaded?
    ensures var r := Load(files, cache, language);
      && language in r.cache.translations
      && Load(files, r.cache, language) == Loading(r.table, r.cache, [])
  {
  }

  /** A file that cannot be read gives an empty table and leaves the state
      as it was, the current language included. */
  lemma LoadBrokenFile(files: Files, cache: Cache, language: string)
    requires language !in cache.translations && files(language).Broken?
    ensures Load(files, cache, language) == Loading(map[], cache, [language])
  {
  }

  /** A missing file for a language other than English loads English: only
      English can be cached or made current, and the language itself stays
      uncached. */
  lemma MissingFallsBackToEnglish(files: Files, cache: Cache, language: string)
    requires language !in cache.translations && files(language).Missing? && language != English
    ensures var r := Load(files, cache, language);
      && language !in r.cache.translations
      && r.cache.translations.Keys <= cache.translations.Keys + {English}
      && (r.cache.current == cache.current || r.cache.current == English)
      && r.consulted[0] == language
  {
    var e := Load(files, cache, English);
    assert English !in cache.translations ==> e.cache.translations.Keys <= cache.translations.Keys + {English};
  }

  // ---------------------------------------------------------------------
  // get_text

  /** The language `get_text` looks up: the argument, else `PYOC_LANGUAGE`,
      else the current language. */
  function Language(cache: Cache, language: Option<string>, env: Option<string>): string {
    if language.Some? then language.value
    else if env.Some? then env.value
    else cache.current
  }

  /** `get_text(key, language)`: the text and the new state. The language is
      loaded first if it is not cached; the lookup then uses that language's
      cached table, or none, so a key without a translation is returned
      unchanged. */
  function Text(files: Files, cache: Cache, key: string, language: Option<string>, env: Option<string>): (string, Cache) {
    var lang := Language(cache, language, env);
    var after := if lang in cache.translations then cache else Load(files, cache, lang).cache;
    var table := if lang in after.translations then after.translations[lang] else map[];
    (if key in table then table[key] else key, after)
  }

  /** The cache is invisible to `get_text` as well: its text is the entry of
      the language's own file, or the key itself. A missing file gives the
      key even though English gets loaded, because the lookup is made under
      the requested language. */
  lemma TextIsDirect(files: Files, cache: Cache, key: string, language: Option<string>, env: Option<string>)
    requires Agrees(files, cache) && CurrentKnown(cache)
    ensures var lang := Language(cache, language, env);
      var r := Text(files, cache, key, language, env);
      && r.0 == (if files(lang).Loaded? && key in files(lang).table then files(lang).table[key] else key)
      && Agrees(files, r.1) && CurrentKnown(r.1)
  {
    var lang := Language(cache, language, env);
    if lang !in cache.translations {
      LoadIsDirect(files, cache, lang);
      if files(lang).Missing? && lang != English {
        MissingFallsBackToEnglish(files, cache, lang);
      }
    }
  }

  /** A key the language's table lacks comes back unchanged; in particular
      any key under a language without a file. */
  lemma UnknownLanguageGivesKey(files: Files, cache: Cache, key: string, language: string, env: Option<string>)
    requires Agrees(files, cache) && CurrentKnown(cache) && files(language).Missing?
    ensures Text(files, cache, key, Some(language), env).0 == key
  {
    TextIsDirect(files, cache, key, Some(language), env);
  }

  /** Without an explicit language the environment variable wins over the
      current language. */
  lemma EnvironmentWins(cache: Cache, env: string)
    ensures Language(cache, None, Some(env)) == env
    ensures Language(cache, None, None) == cache.current
  {
  }

  /** The state kept by the module, as an object. Its invariant is that the
      cache holds only what the files say and the current language is English
      or cached. */
  class Translations {
    const files: Files
    var translations: map<string, Table>
    var currentLanguage: string

    function State(): Cache
      reads this
    {
      Cache(translations, currentLanguage)
    }

    ghost predicate Valid()
      reads this
    {
      Agrees(files, State()) && CurrentKnown(State())
    }

    /** The module at import time: nothing cached, English current. */
    constructor (files: Files)
      ensures this.files == files && State() == Initial && Valid()
    {
      this.files := files;
      translations := map[];
      currentLanguage := English;
    }

    method LoadTranslations(language: string) returns (table: Table)
      requires Valid()
      modifies this
      ensures Valid()
      ensures var r := Load(files, old(State()), language); table == r.table && State() == r.cache
      ensures table == Direct(files, language)
      decreases if language == English then 0 else 1
    {
      LoadIsDirect(files, State(), language);
      if language in translations {
        currentLanguage := language;
        return translations[language];
      }
      var outcome := files(language);
      if outcome.Missing? && language != English {
        table := LoadTranslations(English);
        return;
      }
      match outcome
      case Loaded(t) =>
        translations := translations[language := t];
        currentLanguage := language;
        table := t;
      case Missing =>
        table := map[];
      case Broken =>
        table := map[];
    }

    method GetText(key: string, language: Option<string>, env: Option<string>) returns (text: string)
      requires Valid()
      modifies this
      ensures Valid()
      ensures var r := Text(files, old(State()), key, language, env); text == r.0 && State() == r.1
    {
      TextIsDirect(files, State(), key, language, env);
      var lang := if language.Some? then language.value else if env.Some? then env.value else currentLanguage;
      if lang !in translations {
        var _ := LoadTranslations(lang);
      }
      var translation := if lang in translations then translations[lang] else map[];
      text := if key in translation then translation[key] else key;
    }
  }

  // ---------------------------------------------------------------------
  // get_language_from_alias

  /** `alias_map`; one Spanish alias is the UTF-8 bytes of "español" read
      as Mac Roman, as the file spells it. */
  const AliasMap: map<string, string> := map[
    "en" := "en", "english" := "en", "eng" := "en",
    "es" := "es", "spanish" := "es", "espa\U{221A}\U{00B1}ol" := "es", "espanol" := "es"
  ]

  /** `get_language_from_alias(alias)`: the code of a known alias, in any
      letter case, else None. */
  function LanguageFromAlias(alias: string): (r: Option<string>)
    ensures r.Some? ==> r.value == "en" || r.value == "es"
    ensures r.Some? <==> Lower(alias) in AliasMap
  {
    var key := Lower(alias);
    if key in AliasMap then Some(AliasMap[key]) else None
  }

  lemma {:induction false} LowerIdempotent(s: string)
    ensures Lower(Lower(s)) == Lower(s)
  {
    if |s| > 0 {
      LowerIdempotent(s[1..]);
      assert Lower(s)[1..] == Lower(s[1..]);
    }
  }

  /** Letter case does not matter to the alias lookup. */
  lemma AliasIgnoresCase(alias: string)
    ensures LanguageFromAlias(alias) == LanguageFromAlias(Lower(alias))
  {
    LowerIdempotent(alias);
  }

  /** A text without capital letters is its own lower case. */
  lemma {:induction false} LowerNoCapitals(s: string)
    requires forall i :: 0 <= i < |s| ==> !('A' <= s[i] <= 'Z')
    ensures Lower(s) == s
  {
    if |s| > 0 {
      LowerNoCapitals(s[1..]);
      assert [s[0]] + s[1..] == s;
    }
  }

  /** The spellings of English the source's tests use give "en". */
  lemma EnglishAliases()
    ensures LanguageFromAlias("English") == Some("en")
    ensures LanguageFromAlias("english") == Some("en")
    ensures LanguageFromAlias("en") == Some("en")
  {
    LowerNoCapitals("english");
    LowerNoCapitals("nglish");
    assert "English"[1..] == "nglish";
    assert "english" == ['e'] + "nglish";
    LowerNoCapitals("en");
    assert "english" in AliasMap && "en" in AliasMap;
  }

  /** An alias outside the table gives None. */
  lemma UnknownAlias()
    ensures LanguageFromAlias("unknown_alias") == None
  {
    UnknownAliasLower();
    UnknownAliasAbsent();
  }

  lemma UnknownAliasLower()
    ensures Lower("unknown_alias") == "unknown_alias"
  {
    LowerNoCapitals("unknown_alias");
  }

  lemma UnknownAliasAbsent()
    ensures "unknown_alias" !in AliasMap
  {
  }
}
