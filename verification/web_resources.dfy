/**
 * Choice of the static scripts served with the web client: the translation file for the
 * client's locale and the application bundle for the run mode.
 */
module WebResources {
  import opened Wrappers
  import opened JavaLang
  import opened Settings

  const APP_LOCALE := "application.locale"
  const APP_MODE := "application.mode"
  /** The language of the built-in default locale, `new Locale("en")`. */
  const DEFAULT_LANGUAGE := "en"
  const DEV_BUNDLE := "js/application.js"
  const MIN_BUNDLE := "js/application-all.min.js"

  /** A `java.util.Locale` reduced to its language and country; "" stands for no country. */
  datatype Locale = Locale(language: string, country: string)

  /** The runtime exceptions `getLocaleJS` can raise while reading the configured locale. */
  datatype LocaleError =
    | NullLocale        // `application.locale` absent or blank: `replaceAll` on null
    | IndexOutOfBounds  // `split("_")` gave fewer than two pieces

  /** The resource paths the servlet context reports as existing. */
  type Resources = set<string>

  /** `checkResources(context, path)`: whether the servlet context knows the resource. */
  function CheckResources(resources: Resources, path: string): (found: bool)
    ensures found <==> path in resources
  {
    path in resources
  }

  /** Neither a hyphen nor an underscore: a piece the configured-locale parser keeps whole. */
  predicate NoSeparator(s: string) { '-' !in s && '_' !in s }

  // ---------------------------------------------------------------- locale forms

  /**
   * `convertLanguage(locale, minimize)`: the lower-cased language (short form), followed,
   * unless minimized or the country is empty, by `_` and the upper-cased country (long form).
   */
  function ConvertLanguage(locale: Locale, minimize: bool): (r: string)
    ensures |locale.language| <= |r|
    ensures HasNoUpper(r[..|locale.language|]) && EqualsIgnoreCase(r[..|locale.language|], locale.language)
    ensures minimize || locale.country == "" ==> |r| == |locale.language|
    ensures !minimize && locale.country != "" ==>
      && |r| == |locale.language| + 1 + |locale.country|
      && r[|locale.language|] == '_'
      && HasNoLower(r[|locale.language| + 1..])
      && EqualsIgnoreCase(r[|locale.language| + 1..], locale.country)
  {
    var short := ToLower(locale.language);
    var r := if !minimize && locale.country != "" then short + "_" + ToUpper(locale.country) else short;
    assert r[..|locale.language|] == short;
    assert !minimize && locale.country != "" ==> r[|locale.language| + 1..] == ToUpper(locale.country);
    r
  }

  /** The long form extends the short form, and differs from it exactly when there is a country. */
  lemma LongFormExtendsShortForm(locale: Locale)
    ensures ConvertLanguage(locale, false)[..|ConvertLanguage(locale, true)|] == ConvertLanguage(locale, true)
    ensures ConvertLanguage(locale, false) == ConvertLanguage(locale, true) <==> locale.country == ""
  {
  }

  // ---------------------------------------------------------------- configured locale

  /**
   * The locale built from `application.locale` when the request carries none: hyphens become
   * underscores; with an underscore the first two `split("_")` pieces are language and country,
   * otherwise the whole string is the language and the country is empty.
   */
  function ParseAppLocale(appLocale: Option<string>): (r: Result<Locale, LocaleError>)
    ensures appLocale.None? <==> r == Failure(NullLocale)
    ensures r.Success? ==> NoSeparator(r.value.language) && NoSeparator(r.value.country)
    ensures appLocale.Some? ==>
      var t := ReplaceChar(appLocale.value, '-', '_');
      && ('_' !in t ==> r == Success(Locale(t, "")))
      && ('_' in t ==>
            var first := Before(t, '_');
            var rest := t[|first| + 1..];
            r == if AllChar(rest, '_') then Failure(IndexOutOfBounds)
                 else Success(Locale(first, Before(rest, '_'))))
  {
    match appLocale
    case None => Failure(NullLocale)
    case Some(s) =>
      var t := ReplaceChar(s, '-', '_');
      assert '-' !in t;
      if '_' in t then
        var first := Before(t, '_');
        assert t == first + "_" + t[|first| + 1..];
        JavaSplitAfterFirst(first, t[|first| + 1..], '_');
        var parts := JavaSplit(t, '_');
        if |parts| < 2 then Failure(IndexOutOfBounds)
        else
          assert parts[0] in parts && parts[1] in parts;
          Success(Locale(parts[0], parts[1]))
      else Success(Locale(t, ""))
  }

  /** Replacing hyphens leaves a string without hyphens unchanged. */
  lemma ReplaceHyphenKeeps(s: string)
    requires '-' !in s
    ensures ReplaceChar(s, '-', '_') == s
  {
  }

  /** A configured `lang_REGION` or `lang-REGION` yields exactly that language and country. */
  lemma ParseAppLocaleLangRegion(lang: string, country: string, sep: char)
    requires NoSeparator(lang) && NoSeparator(country) && country != ""
    requires sep == '_' || sep == '-'
    ensures ParseAppLocale(Some(lang + [sep] + country)) == Success(Locale(lang, country))
  {
    var s := lang + [sep] + country;
    var t := ReplaceChar(s, '-', '_');
    assert t == lang + "_" + country by {
      ReplaceHyphenKeeps(lang);
      ReplaceHyphenKeeps(country);
    }
    assert t[|lang|] == '_';
    SplitPair(lang, country, '_');
  }

  /**
   * The general rule: after a separator-free first segment and an underscore, the index
   * failure happens exactly when nothing but underscores follows; otherwise the country is
   * the second segment, whatever segments come after it.
   */
  lemma ParseAppLocaleFirstTwoSegments(first: string, rest: string)
    requires NoSeparator(first) && '-' !in rest
    ensures ParseAppLocale(Some(first + "_" + rest))
            == if AllChar(rest, '_') then Failure(IndexOutOfBounds)
               else Success(Locale(first, Before(rest, '_')))
  {
    var s := first + "_" + rest;
    ReplaceHyphenKeeps(s);
    assert s[|first|] == '_';
    var b := Before(s, '_');
    assert b == first by {
      assert s[..|first|] == first;
    }
    assert s[|first| + 1..] == rest;
  }

  /** Hyphens in the configured value act exactly as underscores. */
  lemma ParseAppLocaleHyphens(s: string)
    ensures ParseAppLocale(Some(s)) == ParseAppLocale(Some(ReplaceChar(s, '-', '_')))
  {
    var t := ReplaceChar(s, '-', '_');
    assert ReplaceChar(t, '-', '_') == t;
  }

  /** More than two segments: the third and later ones are ignored. */
  lemma ParseAppLocaleExampleThreeSegments()
    ensures ParseAppLocale(Some("zh_Hant_TW")) == Success(Locale("zh", "Hant"))
  {
    assert "zh_Hant_TW" == "zh" + "_" + "Hant_TW";
    assert Before("Hant_TW", '_') == "Hant";
    ParseAppLocaleFirstTwoSegments("zh", "Hant_TW");
  }

  /** An empty second segment is an empty country, not a failure. */
  lemma ParseAppLocaleExampleEmptyCountry()
    ensures ParseAppLocale(Some("en__US")) == Success(Locale("en", ""))
  {
    assert "en__US" == "en" + "_" + "_US";
    ParseAppLocaleFirstTwoSegments("en", "_US");
  }

  /** Underscores only: `split` yields no piece at all. */
  lemma ParseAppLocaleExampleOnlySeparator()
    ensures ParseAppLocale(Some("_")) == Failure(IndexOutOfBounds)
  {
    assert "_" == "" + "_" + "";
    ParseAppLocaleFirstTwoSegments("", "");
  }

  /** A configured `lang` alone yields that language with an empty country. */
  lemma ParseAppLocaleLanguageOnly(lang: string)
    requires NoSeparator(lang)
    ensures ParseAppLocale(Some(lang)) == Success(Locale(lang, ""))
  {
    ReplaceHyphenKeeps(lang);
  }

  /** A configured `lang_` (or `lang-`) leaves one piece after `split`, so indexing piece 1 fails. */
  lemma ParseAppLocaleTrailingSeparator(lang: string, sep: char)
    requires NoSeparator(lang)
    requires sep == '_' || sep == '-'
    ensures ParseAppLocale(Some(lang + [sep])) == Failure(IndexOutOfBounds)
  {
    var t := ReplaceChar(lang + [sep], '-', '_');
    assert t == lang + "_" + "" by {
      ReplaceHyphenKeeps(lang);
    }
    assert t[|lang|] == '_';
    SplitPair(lang, "", '_');
    assert |DropTrailingEmpty([lang, ""])| < 2;
  }

  /** The long form of a locale, written into `application.locale`, is read back in canonical case. */
  lemma LongFormRoundTrip(locale: Locale)
    requires NoSeparator(locale.language) && NoSeparator(locale.country) && locale.country != ""
    ensures ParseAppLocale(Some(ConvertLanguage(locale, false)))
            == Success(Locale(ToLower(locale.language), ToUpper(locale.country)))
  {
    var lang, country := ToLower(locale.language), ToUpper(locale.country);
    assert NoSeparator(lang) by {
      forall i | 0 <= i < |lang| ensures lang[i] != '-' && lang[i] != '_' {
        assert locale.language[i] != '-' && locale.language[i] != '_';
      }
    }
    assert NoSeparator(country) by {
      forall i | 0 <= i < |country| ensures country[i] != '-' && country[i] != '_' {
        assert locale.country[i] != '-' && locale.country[i] != '_';
      }
    }
    ParseAppLocaleLangRegion(lang, country, '_');
  }

  // ---------------------------------------------------------------- getLocaleJS

  function I18nPath(form: string): string
  {
    "/js/i18n/" + form + ".js"
  }

  /** The locale `getLocaleJS` works with: the request's, else the configured one. */
  function RequestLocale(props: Properties, request: Option<Locale>): (r: Result<Locale, LocaleError>)
    ensures request.Some? ==> r == Success(request.value)
    ensures request.None? && (APP_LOCALE !in props || IsBlank(props[APP_LOCALE])) ==> r == Failure(NullLocale)
    ensures request.None? && APP_LOCALE in props && !IsBlank(props[APP_LOCALE]) ==>
      r == ParseAppLocale(Some(props[APP_LOCALE]))
  {
    var appLocale := GetOr(props, APP_LOCALE, None);
    match request
    case Some(locale) => Success(locale)
    case None => ParseAppLocale(appLocale)
  }

  /**
   * The translation probe chain: the long form if its script exists, else the short form if
   * its script exists, else the default language.
   */
  function SelectTranslation(locale: Locale, resources: Resources): (r: string)
    ensures var long, short := ConvertLanguage(locale, false), ConvertLanguage(locale, true);
      && (r == long || r == short || r == DEFAULT_LANGUAGE)
      && (I18nPath(long) in resources ==> r == long)
      && (I18nPath(long) !in resources && I18nPath(short) in resources ==> r == short)
      && (I18nPath(long) !in resources && I18nPath(short) !in resources ==> r == DEFAULT_LANGUAGE)
  {
    var longLanguage := ConvertLanguage(locale, false);
    var shortLanguage := ConvertLanguage(locale, true);
    if CheckResources(resources, I18nPath(longLanguage)) then longLanguage
    else if CheckResources(resources, I18nPath(shortLanguage)) then shortLanguage
    else DEFAULT_LANGUAGE
  }

  /** Whatever it picks, the chosen translation script exists or is the default language. */
  lemma SelectTranslationExists(locale: Locale, resources: Resources)
    ensures var r := SelectTranslation(locale, resources);
      I18nPath(r) in resources || r == DEFAULT_LANGUAGE
  {
  }

  /** `getLocaleJS(request, context)`: the translation to load, or the exception raised. */
  function LocaleJS(props: Properties, request: Option<Locale>, resources: Resources): (r: Result<string, LocaleError>)
    ensures request.Some? ==> r == Success(SelectTranslation(request.value, resources))
    ensures r.Failure? <==> RequestLocale(props, request).Failure?
    ensures r.Success? ==> r.value == SelectTranslation(RequestLocale(props, request).value, resources)
  {
    match RequestLocale(props, request)
    case Failure(e) => Failure(e)
    case Success(locale) => Success(SelectTranslation(locale, resources))
  }

  // ---------------------------------------------------------------- getAppJS

  /** The configured run mode, read with "dev" as default, is "dev". */
  predicate IsDevMode(props: Properties)
    ensures IsDevMode(props) <==> APP_MODE !in props || IsBlank(props[APP_MODE]) || props[APP_MODE] == "dev"
  {
    GetOr(props, APP_MODE, Some("dev")) == Some("dev")
  }

  /** `getAppJS(context)`: the minified bundle outside dev mode when it exists, else the plain one. */
  function AppJS(props: Properties, resources: Resources): (r: string)
    ensures r == DEV_BUNDLE || r == MIN_BUNDLE
    ensures r == MIN_BUNDLE <==> !IsDevMode(props) && "/" + MIN_BUNDLE in resources
  {
    var appJs := MIN_BUNDLE;
    if IsDevMode(props) || !CheckResources(resources, "/" + appJs) then DEV_BUNDLE else appJs
  }

  /** An unset or blank `application.mode` counts as dev: the plain bundle whatever exists. */
  lemma AppJSUnconfiguredIsDev(props: Properties, resources: Resources)
    requires APP_MODE !in props || IsBlank(props[APP_MODE])
    ensures AppJS(props, resources) == DEV_BUNDLE
  {
  }
}
