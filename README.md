# Region selector: formatter cache and locale composition

A Dafny model of the logic under a small locale-selection form (a React app). The form
lets a user choose a display language from a fixed list and an optional display region,
and shows the resulting locale identifier. Two pieces of `src/App.tsx` are modelled:

- **The display-names formatter cache** (`getDisplayNamesFormatter` over the module-level
  `displayNamesCache` map). It resolves the locales argument, builds the key
  `locale + JSON.stringify(opts)`, and returns the stored formatter on a hit or builds,
  stores and returns a new one on a miss. `FormatterCache.DisplayNamesCache` is a class
  whose `entries: map<string, DisplayNames>` field is that map. Its method
  `GetDisplayNamesFormatter` says exactly what the new map is. Two ghost fields record
  the keys requested and the keys built. The object invariant `Valid()` ties them to
  the pure function `Constructions`, and `ConstructionsOncePerKey` proves one
  construction per distinct key. Formatters are objects of class `DisplayNames`, so
  "the same formatter" means the same object.
- **Locale composition and input normalisation** (module `LocaleComposer`). These are
  pure functions: the composed locale string (`language` alone, or
  `language-u-rg-<region>zzzz`), the language allow-list fallback, and the mapping of
  the `"none"` region option to "unset". They come with parse/compose round trips and
  injectivity lemmas. The form's two state cells and their change events are modelled
  as the values `Settings` and `Event`.

Modules: `Wrappers` (Option, Result), `Strings` (splitting and `Array.prototype.join`
facts), `LocaleComposer`, `FormatterCache`.

Platform services are parameters or left out:
- `Intl.DisplayNames.supportedLocalesOf` is the constant function field
  `supportedLocalesOf` of the cache. It is deterministic and returns either the
  resolved tags or a RangeError. It is fixed when the cache is created.
- Each tag it returns has the shape of a BCP 47 tag: non-empty, made only of letters,
  digits and hyphens (subset type `LanguageTag`).
- `new Intl.DisplayNames(...)` is a Dafny `new`: a fresh object that remembers its
  locales and options.

The model follows these details of the code:
- `supportedLocalesOf` returns an array of tags. The concatenation at line 20 turns
  that array into a string by joining its elements with `,`. This is `LocaleString`.
- The options are serialised with `JSON.stringify`, which writes members in insertion
  order. `DisplayNamesOptions` fixes that order as the two option literals of the form
  write it: `type`, then `languageDisplay`.
- The region override is the Unicode `u` extension key `rg` (section 3.6 of Unicode
  Technical Standard #35, and RFC 6067).
- `ComposeLocale` gives the string passed to `new Intl.Locale`.

## Model

| member | source | states |
|---|---|---|
| `FormatterCache.DisplayNamesCache.constructor` | src/App.tsx:12 | The cache starts as an empty map: nothing requested, nothing built, invariant holds. |
| `FormatterCache.DisplayNamesCache.GetDisplayNamesFormatter` | src/App.tsx:14-31 | A RangeError from locale resolution leaves the cache unchanged. Otherwise the new map is the old map with the key bound to the returned formatter. On a hit the result is the stored object and nothing is built. On a miss exactly one fresh formatter is built for that key. Existing entries never change or disappear. The result was built for exactly the resolved locales and options. |
| `FormatterCache.DisplayNamesCache.OneConstructionPerKey` | src/App.tsx:22-28 | In a valid cache no key was built twice. There are as many constructions as entries, and as many as distinct keys requested. |
| `FormatterCache.RepeatedCallIsStable` | src/App.tsx:22-30 | Two calls with the same arguments return the identical formatter, or the same error. Only the first call can build a formatter; the second is a hit that changes nothing. |
| `FormatterCache.DisplayNames.constructor` | src/App.tsx:27 | A new formatter is bound to the resolved locales and options it is built with. |
| `FormatterCache.ConstructionsOncePerKey` | src/App.tsx:27-28 | Over any sequence of calls, the built keys have no repeats and are exactly the distinct keys requested. So the number of constructions equals the number of distinct keys. |
| `FormatterCache.ConstructionsSnoc` | src/App.tsx:22-28 | One more call adds its key to the distinct keys. It builds a formatter exactly when the key had not been requested before. |
| `FormatterCache.CacheKeyInjective` | src/App.tsx:18-20 | Equal keys come only from equal resolved locale lists and equal options. So a hit always returns a formatter for the request's own locales and options. |
| `FormatterCache.CacheKey` | src/App.tsx:20 | The key's first `{` sits right after the locale string, and what follows it is the serialised options. |
| `FormatterCache.LocaleString` | src/App.tsx:20 | The resolved locales as a string contain no `{`, and are empty exactly when no locale was resolved. |
| `FormatterCache.Serialize` | src/App.tsx:20 | The serialised options are a JSON object text: non-empty and starting with `{`. |
| `FormatterCache.SerializeInjective` | src/App.tsx:20 | Distinct options serialise to distinct JSON texts. |
| `FormatterCache.SerializeRegionNamesOptions` | src/App.tsx:45-47 | The region-label options serialise to `{"type":"region"}`, as `JSON.stringify` writes them. |
| `FormatterCache.SerializeLanguageNamesOptions` | src/App.tsx:81-84 | The language-label options serialise to `{"type":"language","languageDisplay":"standard"}`, as `JSON.stringify` writes them. |
| `FormatterCache.LanguageDisplayMemberInjective` | src/App.tsx:20 | The `languageDisplay` part of the JSON text determines that option, absent or present. |
| `FormatterCache.TypeNameRoundTrip` | src/App.tsx:20 | Each `type` name parses back to its display type and contains no double quote. |
| `FormatterCache.TagsExclude` | src/App.tsx:18 | A resolved tag is non-empty and contains no character other than letters, digits and hyphens, in particular no `,` or `{`. |
| `Strings.JoinInjective` | src/App.tsx:20 | Joining non-empty, comma-free tags with `,` (the array-to-string coercion) determines the tag list. |
| `Strings.Join` | src/App.tsx:20 | The joined string is as long as all parts together plus one separator between each two. |
| `Strings.JoinExcludes` | src/App.tsx:20 | A character absent from every tag, and different from the separator, is absent from the joined string. |
| `Strings.JoinHead` | src/App.tsx:20 | The joined string begins with the first part, so it is non-empty when that part is. |
| `Strings.SplitAtFirst` | src/App.tsx:20 | A string built as a separator-free part followed by a part that starts with the separator splits in only one way. |
| `LocaleComposer.ComposeLocale` | src/App.tsx:49-53 | The composed locale always begins with the language. It has no more than the language exactly when no region is set, and then it is the language verbatim. |
| `LocaleComposer.Locale` | src/App.tsx:49-53 | The locale derived from the two state cells parses back to exactly the stored region for the stored language. |
| `LocaleComposer.ParseComposeLocale` | src/App.tsx:51 | Stripping the `language-u-rg-` prefix and the `zzzz` suffix recovers the region. The bare language parses as "no region". |
| `LocaleComposer.ComposeParseLocale` | src/App.tsx:51 | Any string that parses as a locale for the language is exactly the composition of what it parses to. |
| `LocaleComposer.ComposeLocaleInjective` | src/App.tsx:51 | For a fixed language, distinct region choices (including none) give distinct locale strings. |
| `LocaleComposer.ComposeLocaleInjectiveOnAppLanguages` | src/App.tsx:51 | For languages in the supported list, the locale string determines both the language and the region. |
| `LocaleComposer.LongerLanguageNotPrefix` | src/App.tsx:51 | A locale composed from a supported language never begins with a longer supported language. |
| `LocaleComposer.AppLanguagePrefix` | src/App.tsx:5 | When one supported language is a proper prefix of another, the longer one continues with `-` and an upper-case letter. |
| `LocaleComposer.LanguageConstants` | src/App.tsx:5-7 | The default language is a supported language, the supported list has no repeats, and the `"none"` region value is not a language. |
| `LocaleComposer.NormaliseLanguage` | src/App.tsx:72-76 | The stored language is always in the supported list. It equals the selected value exactly when that value is supported; otherwise it is the default language. |
| `LocaleComposer.NormaliseLanguageIdempotent` | src/App.tsx:72-76 | Normalising an already normalised language changes nothing. |
| `LocaleComposer.SelectRegion` | src/App.tsx:101-108 | The region becomes unset exactly for the `"none"` option. Any other value is stored verbatim. |
| `LocaleComposer.Handle` | src/App.tsx:71-108 | A language change sets only the language, normalised. A region change sets only the region, through the `"none"` mapping. |
| `LocaleComposer.HandleAll` | src/App.tsx:71-108 | A sequence of events of one select leaves the other cell alone, and the last event of a sequence decides its own cell. |
| `LocaleComposer.HandleAllAppend` | src/App.tsx:71-108 | Handling two event sequences one after the other is handling their concatenation. |
| `LocaleComposer.LastRegionEventDecides` | src/App.tsx:101-108 | In any event sequence, the region is set by the last region event; later language events leave it alone. |
| `LocaleComposer.LastLanguageEventDecides` | src/App.tsx:71-77 | In any event sequence, the language is set by the last language event, normalised; later region events leave it alone. |
| `LocaleComposer.LanguageAlwaysSupported` | src/App.tsx:72-76 | From a state with a supported language, every sequence of change events keeps the language supported. |
| `LocaleComposer.ReachableLanguageSupported` | src/App.tsx:36-37 | Every state reachable from the initial state (default language, no region) stores a supported language. |
| `LocaleComposer.ResetRegionGivesBareLanguage` | src/App.tsx:103-105 | Choosing `"none"` after any region makes the locale the bare language again. |
| `LocaleComposer.RegionChangeIsRecoverable` | src/App.tsx:107 | Choosing a real region makes the locale carry exactly that region. |
| `LocaleComposer.UnsupportedLanguageFallsBack` | src/App.tsx:72-76 | An unsupported language value gives the same locale as the default language. |

## Left out

- React rendering: `useState`, `useId`, `useMemo`, the JSX markup, element ids and the order of render-time calls. Only the two state cells and their change handlers are modelled, as pure values.
- Locale matching inside `supportedLocalesOf`. It is a parameter of the cache, assumed deterministic, returning well-formed tags or a RangeError.
- `Intl.Locale` canonicalisation and its RangeError for a malformed composed string. `ComposeLocale` gives the string passed to the constructor.
- `DisplayNames.of` labels, and `Intl.NumberFormat` and `Intl.DateTimeFormat` output, including the currency and date examples with their floating-point amount and `Date`. These are platform formatting.
- The contents of `countries.json`. Region values are arbitrary strings.
- `Intl.Locale` objects as a locales argument. `LocalesArgument` covers undefined, one string and a list of strings.
- Display-names options other than `type` and `languageDisplay` (`style`, `fallback`, `localeMatcher`), and option objects with another member order.
- A TypeError or RangeError from the `Intl.DisplayNames` constructor. The option types admit only valid options.
