/**
 * The pure rules under the locale-selection form: the supported languages, how a
 * selected value becomes the stored language or region, and how the language and
 * the optional display region combine into one locale identifier.
 */
module LocaleComposer {
  import opened Wrappers

  /** The languages the form offers, in the order it lists them. */
  const AppLanguages: seq<string> := ["en", "en-US", "en-GB", "fi", "sv", "sv-FI", "el"]

  /** The language used initially and whenever a selected value is not supported. */
  const DefaultLang: string := "en"

  /** The value of the region option that stands for "no display region". */
  const NoneRegionValue: string := "none"

  /**
   * The default language is one of the supported languages, the list has no repeats, and
   * the "none" region value is not a language.
   */
  lemma LanguageConstants()
    ensures DefaultLang in AppLanguages
    ensures forall i, j :: 0 <= i < j < |AppLanguages| ==> AppLanguages[i] != AppLanguages[j]
    ensures NoneRegionValue !in AppLanguages
  {
  }

  /**
   * What goes between the language and the region: the Unicode locale extension `u`
   * with its key `rg` (region override), section 3.6 of Unicode Technical Standard #35
   * and RFC 6067.
   */
  const RegionOverridePrefix: string := "-u-rg-"

  /**
   * The value of `rg` is a subdivision id; the suffix `zzzz` makes it name the
   * whole region (section 3.6.5 of Unicode Technical Standard #35).
   */
  const WholeRegionSuffix: string := "zzzz"

  // ---------------------------------------------------------------------------
  // Composing the locale identifier
  // ---------------------------------------------------------------------------

  /**
   * The locale string handed to the locale constructor: the bare language when no
   * region is set, otherwise the language with a region override for `region`.
   */
  function ComposeLocale(language: string, region: Option<string>): (r: string)
    ensures |r| >= |language| && r[..|language|] == language
    ensures region.None? <==> |r| == |language|
    ensures region.None? ==> r == language
  {
    match region
    case None => language
    case Some(code) => language + RegionOverridePrefix + code + WholeRegionSuffix
  }

  /**
   * Reads back the region a composed locale string carries for `language`:
   * `Some(None)` for the bare language, `Some(Some(code))` for a region override,
   * `None` when `s` is not of either form.
   */
  function ParseLocale(language: string, s: string): Option<Option<string>>
  {
    var n := |language|;
    if s == language then Some(None)
    else if |s| >= n + |RegionOverridePrefix| + |WholeRegionSuffix|
         && s[..n + |RegionOverridePrefix|] == language + RegionOverridePrefix
         && s[|s| - |WholeRegionSuffix|..] == WholeRegionSuffix
    then Some(Some(s[n + |RegionOverridePrefix|..|s| - |WholeRegionSuffix|]))
    else None
  }

  /** Parsing a composed locale gives back the region it was composed with. */
  lemma ParseComposeLocale(language: string, region: Option<string>)
    ensures ParseLocale(language, ComposeLocale(language, region)) == Some(region)
  {
  }

  /** Whatever parses composes back to exactly the string that was parsed. */
  lemma ComposeParseLocale(language: string, s: string)
    requires ParseLocale(language, s).Some?
    ensures ComposeLocale(language, ParseLocale(language, s).value) == s
  {
  }

  /** For a fixed language, distinct regions (or a region and none) give distinct locale strings. */
  lemma {:induction false} ComposeLocaleInjective(language: string, r1: Option<string>, r2: Option<string>)
    requires ComposeLocale(language, r1) == ComposeLocale(language, r2)
    ensures r1 == r2
  {
    ParseComposeLocale(language, r1);
    ParseComposeLocale(language, r2);
  }

  /**
   * When one supported language is a proper prefix of another, the longer one goes on
   * with a hyphen and an upper-case region subtag ("en" / "en-US", "en-GB"; "sv" / "sv-FI").
   */
  lemma AppLanguagePrefix(l1: string, l2: string)
    requires l1 in AppLanguages && l2 in AppLanguages
    requires |l1| < |l2| && l2[..|l1|] == l1
    ensures |l2| >= |l1| + 2 && l2[|l1|] == '-' && 'A' <= l2[|l1| + 1] <= 'Z'
  {
  }

  /**
   * Over the supported languages the whole composition is injective: the locale string
   * determines both the language and the region.
   */
  lemma ComposeLocaleInjectiveOnAppLanguages(l1: string, r1: Option<string>, l2: string, r2: Option<string>)
    requires l1 in AppLanguages && l2 in AppLanguages
    requires ComposeLocale(l1, r1) == ComposeLocale(l2, r2)
    ensures l1 == l2 && r1 == r2
  {
    var s := ComposeLocale(l1, r1);
    if |l1| < |l2| {
      LongerLanguageNotPrefix(l1, r1, l2);
    } else if |l2| < |l1| {
      LongerLanguageNotPrefix(l2, r2, l1);
    }
    assert l1 == s[..|l1|];
    assert l2 == s[..|l2|];
    ComposeLocaleInjective(l1, r1, r2);
  }

  /** A locale composed from `l1` never begins with a strictly longer supported language. */
  lemma LongerLanguageNotPrefix(l1: string, r1: Option<string>, l2: string)
    requires l1 in AppLanguages && l2 in AppLanguages && |l1| < |l2|
    ensures var s := ComposeLocale(l1, r1); |s| < |l2| || s[..|l2|] != l2
  {
    var s := ComposeLocale(l1, r1);
    var n := |l1|;
    if |s| >= |l2| {
      assert s[..|l2|][..n] == l1;
      if l2[..n] == l1 {
        AppLanguagePrefix(l1, l2);
        assert s == l1 + RegionOverridePrefix + r1.value + WholeRegionSuffix;
        assert s[..|l2|][n + 1] == 'u' != l2[n + 1];
      }
    }
  }

  // ---------------------------------------------------------------------------
  // Normalising the selected values
  // ---------------------------------------------------------------------------

  /**
   * The language stored when the language select changes to `value`: the value itself
   * when it is supported, otherwise the default language.
   */
  function NormaliseLanguage(value: string): (r: string)
    ensures r in AppLanguages
    ensures r == value <==> value in AppLanguages
    ensures value !in AppLanguages ==> r == DefaultLang
  {
    if value in AppLanguages then value else DefaultLang
  }

  /** Normalising twice is normalising once. */
  lemma NormaliseLanguageIdempotent(value: string)
    ensures NormaliseLanguage(NormaliseLanguage(value)) == NormaliseLanguage(value)
  {
  }

  /**
   * The region stored when the region select changes to `value`: unset for the
   * "none" option, the value verbatim for every other option.
   */
  function SelectRegion(value: string): (r: Option<string>)
    ensures r.None? <==> value == NoneRegionValue
    ensures r.Some? ==> r.value == value
  {
    if value == NoneRegionValue then None else Some(value)
  }

  // ---------------------------------------------------------------------------
  // The two state cells of the form and their change events
  // ---------------------------------------------------------------------------

  /** The form's state: the stored language and the stored display region. */
  datatype Settings = Settings(language: string, region: Option<string>)

  /** A change event of one of the two selects, with the selected option's value. */
  datatype Event = LanguageChanged(value: string) | RegionChanged(value: string)

  /** The state before any event: the default language and no region. */
  const InitialSettings: Settings := Settings(DefaultLang, None)

  /**
   * The locale identifier derived from the current state: it carries exactly the stored
   * region for the stored language.
   */
  function Locale(s: Settings): (r: string)
    ensures ParseLocale(s.language, r) == Some(s.region)
  {
    ParseComposeLocale(s.language, s.region);
    ComposeLocale(s.language, s.region)
  }

  /** One change event: it sets one state cell and leaves the other as it was. */
  function Handle(s: Settings, e: Event): (t: Settings)
    ensures e.LanguageChanged? ==> t.region == s.region && t.language == NormaliseLanguage(e.value)
    ensures e.RegionChanged? ==> t.language == s.language && t.region == SelectRegion(e.value)
  {
    match e
    case LanguageChanged(v) => s.(language := NormaliseLanguage(v))
    case RegionChanged(v) => s.(region := SelectRegion(v))
  }

  /**
   * The state after a sequence of change events, handled in order. A sequence of
   * events of one select leaves the other cell alone, and the last event of the
   * sequence decides its own cell; LastRegionEventDecides and LastLanguageEventDecides
   * state the same for mixed sequences.
   */
  function HandleAll(s: Settings, events: seq<Event>): (t: Settings)
    ensures (forall i :: 0 <= i < |events| ==> events[i].LanguageChanged?) ==> t.region == s.region
    ensures (forall i :: 0 <= i < |events| ==> events[i].RegionChanged?) ==> t.language == s.language
    ensures events != [] && events[|events| - 1].RegionChanged? ==>
      t.region == SelectRegion(events[|events| - 1].value)
    ensures events != [] && events[|events| - 1].LanguageChanged? ==>
      t.language == NormaliseLanguage(events[|events| - 1].value)
    decreases |events|
  {
    if events == [] then s else HandleAll(Handle(s, events[0]), events[1..])
  }

  /** Handling `a + b` is handling `a`, then `b` from the state `a` leads to. */
  lemma {:induction false} HandleAllAppend(s: Settings, a: seq<Event>, b: seq<Event>)
    ensures HandleAll(s, a + b) == HandleAll(HandleAll(s, a), b)
    decreases |a|
  {
    if a != [] {
      assert (a + b)[0] == a[0];
      assert (a + b)[1..] == a[1..] + b;
      assert HandleAll(s, a + b) == HandleAll(Handle(s, a[0]), a[1..] + b);
      HandleAllAppend(Handle(s, a[0]), a[1..], b);
    } else {
      assert a + b == b;
    }
  }

  /** The last region event decides the region; language events after it leave it alone. */
  lemma LastRegionEventDecides(s: Settings, a: seq<Event>, v: string, b: seq<Event>)
    requires forall i :: 0 <= i < |b| ==> b[i].LanguageChanged?
    ensures HandleAll(s, a + [RegionChanged(v)] + b).region == SelectRegion(v)
  {
    HandleAllAppend(s, a + [RegionChanged(v)], b);
    HandleAllAppend(s, a, [RegionChanged(v)]);
  }

  /** The last language event decides the language; region events after it leave it alone. */
  lemma LastLanguageEventDecides(s: Settings, a: seq<Event>, v: string, b: seq<Event>)
    requires forall i :: 0 <= i < |b| ==> b[i].RegionChanged?
    ensures HandleAll(s, a + [LanguageChanged(v)] + b).language == NormaliseLanguage(v)
  {
    HandleAllAppend(s, a + [LanguageChanged(v)], b);
    HandleAllAppend(s, a, [LanguageChanged(v)]);
  }

  /** After any sequence of events from the initial state, the stored language is supported. */
  lemma {:induction false} LanguageAlwaysSupported(s: Settings, events: seq<Event>)
    requires s.language in AppLanguages
    ensures HandleAll(s, events).language in AppLanguages
    decreases |events|
  {
    if events != [] {
      LanguageAlwaysSupported(Handle(s, events[0]), events[1..]);
    }
  }

  /** The initial state, and so every state the form reaches, stores a supported language. */
  lemma ReachableLanguageSupported(events: seq<Event>)
    ensures HandleAll(InitialSettings, events).language in AppLanguages
  {
    LanguageAlwaysSupported(InitialSettings, events);
  }

  /** Choosing "none" as the region makes the locale the bare language, whatever region was set. */
  lemma ResetRegionGivesBareLanguage(s: Settings)
    ensures Locale(Handle(s, RegionChanged(NoneRegionValue))) == s.language
  {
  }

  /** Choosing a real region makes the locale carry exactly that region. */
  lemma RegionChangeIsRecoverable(s: Settings, value: string)
    requires value != NoneRegionValue
    ensures ParseLocale(s.language, Locale(Handle(s, RegionChanged(value)))) == Some(Some(value))
  {
  }

  /** An unsupported language value gives the same locale as the default language. */
  lemma UnsupportedLanguageFallsBack(s: Settings, value: string)
    requires value !in AppLanguages
    ensures Locale(Handle(s, LanguageChanged(value))) == Locale(s.(language := DefaultLang))
  {
  }
}
