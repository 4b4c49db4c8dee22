# AppSettings — a Dafny model

This project models `AppSettings`, the settings object of the Axelor web module. It covers four parts:

- **The store.** A table of configuration properties loaded from `application.properties`. It offers typed
  lookups (`get`, `get` with a default, `getInt`, `getBoolean`) and an in-place override merge (`putAll`).
- **The public view.** `toJSON` overlays the configuration on the current user's name and login, then drops
  the server-only `temp.dir` key.
- **The translation chooser.** `getLocaleJS` takes the request locale, or else the configured
  `application.locale`. It probes `/js/i18n/<lang_REGION>.js`, then `/js/i18n/<lang>.js`, and falls back to `en`.
- **The bundle chooser.** `getAppJS` serves the minified bundle outside dev mode when it exists, and the
  plain bundle otherwise.

Files:

- `wrappers.dfy` — `Option` (a Java nullable) and `Result` (a value or the exception raised).
- `java_lang.dfy` — the `java.lang` behaviour the class relies on: `String.trim`, `replaceAll`/`split`
  with a one-character pattern, ASCII case mapping, `equalsIgnoreCase`, `Integer.parseInt` (with
  `Integer.toString` as its inverse) and `Boolean.parseBoolean`.
- `settings.dfy` — the lookups as functions over the property map, and the `putAll` merge. It also holds
  the public view and the class `AppSettings`, whose `properties` field `PutAll` updates in place and
  from which `ToJSON` builds its table step by step.
- `web_resources.dfy` — `convertLanguage`, the configured-locale parser, `getLocaleJS` and `getAppJS`.

The external collaborators become inputs:

- the servlet context's `getResource` becomes a `set<string>` of existing paths;
- `request.getLocale()` becomes an `Option<Locale>`;
- the Shiro subject and user lookup become an `Option<User>`, whose name and code may each be null.

Three behaviours of the code are worth stating plainly:

- `getBoolean` ignores its default once the key is present, so `"yes"` gives `false` even with default `true`.
- `getInt` does not trim the stored value, so `" 42"` yields the default.
- A configured locale `_US` is accepted, with language `""`. The index exception is raised only when
  `split("_")` yields fewer than two pieces, as for `en_`, `_` and `en__`.

## Model

| member | source | states |
|---|---|---|
| `JavaLang.Trim` | axelor-web/src/main/java/com/axelor/web/AppSettings.java:60 | the result of `trim` is empty or starts and ends with a character above U+0020 |
| `JavaLang.TrimKeepsInfix` | axelor-web/src/main/java/com/axelor/web/AppSettings.java:60 | `trim` keeps a contiguous piece of its input and drops only characters at most U+0020 |
| `JavaLang.TrimEmptyIffBlank` | axelor-web/src/main/java/com/axelor/web/AppSettings.java:60 | `value.trim()` equals `""` exactly when every character of the value is at most U+0020 |
| `JavaLang.ParseInt` | axelor-web/src/main/java/com/axelor/web/AppSettings.java:67 | only an optional sign then one or more digits is accepted, never with a blank at either end; unsigned and `+` digits are accepted exactly below 2^31 and `-` digits down to -2^31, and the result is the decimal value, negated after `-` |
| `JavaLang.ParseFormatRoundTrip` | axelor-web/src/main/java/com/axelor/web/AppSettings.java:67 | `parseInt` inverts `Integer.toString` on every 32-bit `int`, negatives and `MIN_VALUE` included |
| `JavaLang.ParseBoolean` | axelor-web/src/main/java/com/axelor/web/AppSettings.java:74 | `parseBoolean` is true exactly for a non-null four-letter string that lower-cases to `true` |
| `JavaLang.JavaSplit` | axelor-web/src/main/java/com/axelor/web/AppSettings.java:130 | without a separator the piece is the whole string; otherwise the pieces hold no separator, the last is non-empty, and glued back with the separator they give the input up to a tail of separators |
| `JavaLang.JavaSplitAfterFirst` | axelor-web/src/main/java/com/axelor/web/AppSettings.java:130 | after a separator-free first segment and a separator, there are at least two pieces exactly when the rest is not all separators, and then the pieces start with the first segment and the rest up to its next separator |
| `JavaLang.JavaSplitPair` | axelor-web/src/main/java/com/axelor/web/AppSettings.java:130 | `a_b` with no underscore in `a` or `b` splits into `[a, b]`; with `b` empty into `[a]`, or `[]` when `a` is empty too |
| `JavaLang.ReplaceChar` | axelor-web/src/main/java/com/axelor/web/AppSettings.java:129 | `replaceAll("-", "_")` keeps the length and changes exactly the hyphens, into underscores |
| `JavaLang.ToLower` | axelor-web/src/main/java/com/axelor/web/AppSettings.java:166 | `toLowerCase` keeps the length and maps each character to its lower-case form, ASCII letters only |
| `JavaLang.ToUpper` | axelor-web/src/main/java/com/axelor/web/AppSettings.java:168 | `toUpperCase` keeps the length and maps each character to its upper-case form, ASCII letters only |
| `Settings.Get` | axelor-web/src/main/java/com/axelor/web/AppSettings.java:54-56 | `get(key)` is null exactly when the key is absent, otherwise the stored value |
| `Settings.GetOr` | axelor-web/src/main/java/com/axelor/web/AppSettings.java:58-63 | `get(key, default)` is the default when the key is absent or its value is blank, else the stored value unchanged |
| `Settings.GetOrNeverBlank` | axelor-web/src/main/java/com/axelor/web/AppSettings.java:58-63 | with a non-blank default, `get(key, default)` is never null and never blank |
| `Settings.GetInt` | axelor-web/src/main/java/com/axelor/web/AppSettings.java:65-70 | an absent key gives the default; a present key gives the value `parseInt` reads from the raw stored value, or the default when it rejects it |
| `Settings.GetIntReadsBack` | axelor-web/src/main/java/com/axelor/web/AppSettings.java:65-70 | storing `Integer.toString(n)` under a key makes `getInt` return `n`, whatever the default |
| `Settings.GetIntRejectsPadding` | axelor-web/src/main/java/com/axelor/web/AppSettings.java:65-70 | a stored value with a blank at either end yields the default, because the value is not trimmed |
| `Settings.GetBoolean` | axelor-web/src/main/java/com/axelor/web/AppSettings.java:72-77 | an absent key gives the default; a present key gives true exactly when its value is `true` in any letter case |
| `Settings.GetBooleanIgnoresDefault` | axelor-web/src/main/java/com/axelor/web/AppSettings.java:72-77 | once the key is present the default has no effect, so `yes` reads as false even with default true |
| `Settings.Merge` | axelor-web/src/main/java/com/axelor/web/AppSettings.java:79-81 | after the merge the keys are the union; override keys carry the override value; other keys keep their old value |
| `Settings.MergeIdempotent` | axelor-web/src/main/java/com/axelor/web/AppSettings.java:79-81 | applying the same overrides twice equals applying them once |
| `Settings.MergeLastWriteWins` | axelor-web/src/main/java/com/axelor/web/AppSettings.java:79-81 | two successive merges equal one merge of the later overrides over the earlier ones |
| `Settings.AppSettings.constructor` | axelor-web/src/main/java/com/axelor/web/AppSettings.java:29-46 | the store starts with the loaded property table |
| `Settings.AppSettings.PutAll` | axelor-web/src/main/java/com/axelor/web/AppSettings.java:79-81 | the store's table becomes the merge of the old table and the overrides; keys outside the overrides keep their presence and value |
| `Settings.IdentityEntries` | axelor-web/src/main/java/com/axelor/web/AppSettings.java:91-97 | `user.name` is set when a user with a non-null name is found; `user.login` is set only if, in addition, the code is non-null; nothing else is set |
| `Settings.PublicView` | axelor-web/src/main/java/com/axelor/web/AppSettings.java:89-102 | the view never holds `temp.dir`; its keys are the configuration and identity keys minus `temp.dir`; configuration values win over identity values |
| `Settings.TempDirNeverPublished` | axelor-web/src/main/java/com/axelor/web/AppSettings.java:99-102 | a `temp.dir` added through `putAll` is in the store but not in the public view |
| `Settings.AppSettings.ToJSON` | axelor-web/src/main/java/com/axelor/web/AppSettings.java:87-103 | the table built by `put`, `put`, `putAll`, `remove` is the public view of the current store |
| `WebResources.ConvertLanguage` | axelor-web/src/main/java/com/axelor/web/AppSettings.java:165-170 | the result starts with the language, lower-cased; when not minimized and the country is non-empty, it continues with `_` and the country, upper-cased; otherwise nothing follows |
| `WebResources.LongFormExtendsShortForm` | axelor-web/src/main/java/com/axelor/web/AppSettings.java:165-170 | the short form is a prefix of the long form, and the two are equal exactly when the country is empty |
| `WebResources.ParseAppLocale` | axelor-web/src/main/java/com/axelor/web/AppSettings.java:124-132 | a null value raises the null-pointer failure and nothing else does; after hyphens become underscores, a value without `_` is the language with no country; otherwise the language is the first segment, the index failure happens exactly when only underscores follow it, and else the country is the second segment |
| `WebResources.ParseAppLocaleFirstTwoSegments` | axelor-web/src/main/java/com/axelor/web/AppSettings.java:129-130 | for `first_rest`: the index failure when `rest` is all underscores, otherwise language `first` and country `rest` up to its first underscore |
| `WebResources.ParseAppLocaleHyphens` | axelor-web/src/main/java/com/axelor/web/AppSettings.java:129 | hyphens in the configured value act exactly as underscores |
| `WebResources.ParseAppLocaleExampleThreeSegments` | axelor-web/src/main/java/com/axelor/web/AppSettings.java:130 | `zh_Hant_TW` gives language `zh` and country `Hant` |
| `WebResources.ParseAppLocaleExampleEmptyCountry` | axelor-web/src/main/java/com/axelor/web/AppSettings.java:130 | `en__US` gives language `en` and an empty country |
| `WebResources.ParseAppLocaleExampleOnlySeparator` | axelor-web/src/main/java/com/axelor/web/AppSettings.java:130 | `_` raises the index failure |
| `WebResources.ParseAppLocaleLangRegion` | axelor-web/src/main/java/com/axelor/web/AppSettings.java:129-130 | `lang_REGION` and `lang-REGION` parse to exactly that language and country |
| `WebResources.ParseAppLocaleLanguageOnly` | axelor-web/src/main/java/com/axelor/web/AppSettings.java:129-131 | a configured locale without separators is the language, with an empty country |
| `WebResources.ParseAppLocaleTrailingSeparator` | axelor-web/src/main/java/com/axelor/web/AppSettings.java:129-130 | `lang_` and `lang-` raise the array-index failure |
| `WebResources.LongFormRoundTrip` | axelor-web/src/main/java/com/axelor/web/AppSettings.java:129-135 | a long form written into `application.locale` parses back to the canonical-case language and country |
| `WebResources.RequestLocale` | axelor-web/src/main/java/com/axelor/web/AppSettings.java:124-132 | the request locale wins; without one, an absent or blank `application.locale` fails with the null-pointer error; otherwise that value is parsed |
| `WebResources.SelectTranslation` | axelor-web/src/main/java/com/axelor/web/AppSettings.java:134-144 | the result is the long form, the short form or `en`; the long form whenever its script exists; the short form only when the long script is missing and the short one exists; otherwise `en` |
| `WebResources.SelectTranslationExists` | axelor-web/src/main/java/com/axelor/web/AppSettings.java:137-144 | the chosen translation's script exists, unless the choice is the default `en` |
| `WebResources.LocaleJS` | axelor-web/src/main/java/com/axelor/web/AppSettings.java:121-146 | with a request locale it always succeeds; it fails exactly when resolving the locale fails; on success it is the probe chain's choice for the resolved locale |
| `WebResources.CheckResources` | axelor-web/src/main/java/com/axelor/web/AppSettings.java:172-179 | the probe reports a resource exactly when the servlet context knows its path |
| `WebResources.IsDevMode` | axelor-web/src/main/java/com/axelor/web/AppSettings.java:158 | the mode counts as `dev` exactly when `application.mode` is absent, blank or `dev` |
| `WebResources.AppJS` | axelor-web/src/main/java/com/axelor/web/AppSettings.java:155-163 | the result is one of the two bundles; it is the minified bundle exactly when the mode is not `dev` and the minified file exists |
| `WebResources.AppJSUnconfiguredIsDev` | axelor-web/src/main/java/com/axelor/web/AppSettings.java:158 | an absent or blank `application.mode` counts as `dev`: the plain bundle, whatever files exist |

## Left out

- Loading `application.properties` (lines 31-45): the class-path lookup and the `Properties.load` parser are
  I/O and a library. The constructor takes the loaded table. The two failures are not modelled: a missing
  file and an unreadable file.
- The lazy singleton `get()` (lines 48-52) is left out. It only manages a process-wide instance. Callers
  pass the store's table explicitly.
- `getProperties()` (lines 83-85) is left out. It exposes the live table, so callers can alias it. The
  model has no aliasing of the table.
- The Shiro subject and the user query (lines 92-93) become the `Option<User>` input. An exception, no
  subject or no matching user all read as `None`.
- The JSON text made by Jackson, and its `"{}"` fallback (lines 104-109), are left out. `ToJSON` returns
  the table that would be serialised.
- The servlet `getResource` and `request.getLocale()` are inputs, a set of paths and an optional locale.
  Malformed paths cannot arise: every probed path starts with `/`.
- `ConvertLanguage`: case mapping is ASCII only. The model leaves out Java's locale-sensitive
  `toLowerCase`/`toUpperCase` and `java.util.Locale`'s own normalisation of old ISO codes such as `he` → `iw`.
- `ParseInt`: the model accepts only ASCII digits. `Character.digit` also accepts other Unicode decimal digits.
- `ParseBoolean`: case folding is ASCII only. No non-ASCII character folds to a letter of `true`, so this
  changes no result.
- Concurrent reads during `putAll` are left out. The model is sequential.
