/**
 * The module-level memo cache of display-name formatters: one long-lived map from a
 * key (resolved locales followed by the serialised options) to the formatter built for
 * it, reached only through a get-or-create operation.
 */
module FormatterCache {
  import opened Wrappers
  import opened Strings

  // ---------------------------------------------------------------------------
  // Locales
  // ---------------------------------------------------------------------------

  /** A character that may occur in a BCP 47 language tag. */
  predicate IsTagChar(c: char)
  {
    ('a' <= c <= 'z') || ('A' <= c <= 'Z') || ('0' <= c <= '9') || c == '-'
  }

  /** The shape of a language tag: non-empty, letters, digits and hyphens only. */
  predicate IsTagShaped(t: string)
  {
    |t| > 0 && forall i :: 0 <= i < |t| ==> IsTagChar(t[i])
  }

  /** A language tag as the locale-resolution service returns it. */
  type LanguageTag = t: string | IsTagShaped(t) witness "und"

  /** What a caller may pass as the locales argument: nothing, one tag, or a list of tags. */
  datatype LocalesArgument = Undefined | Tag(tag: string) | Tags(tags: seq<string>)

  /** The exception the locale-resolution service throws for a malformed tag. */
  datatype Error = RangeError

  /**
   * The resolved locales as the string they become when concatenated to the key: no
   * `{` in it, and empty exactly when no locale was resolved.
   */
  function LocaleString(locales: seq<LanguageTag>): (s: string)
    ensures Excludes(s, '{')
    ensures s == [] <==> locales == []
  {
    TagsExclude(locales, '{');
    JoinExcludes(locales, ',', '{');
    if locales != [] then JoinHead(locales, ','); Join(locales, ',') else Join(locales, ',')
  }

  // ---------------------------------------------------------------------------
  // Options and their serialisation
  // ---------------------------------------------------------------------------

  /** The kinds of code a display-name formatter can label. */
  datatype DisplayType = Language | Region | Script | Currency | Calendar | DateTimeField

  /** How a language formatter renders a tag with a region. */
  datatype LanguageDisplay = Dialect | Standard

  /**
   * The formatter options, with their members in the order the two option objects of
   * the form write them: `type` first, then the optional `languageDisplay`.
   */
  datatype DisplayNamesOptions = DisplayNamesOptions(kind: DisplayType, languageDisplay: Option<LanguageDisplay>)

  /** The options of the region labels, serialised as `{"type":"region"}`. */
  const RegionNamesOptions: DisplayNamesOptions := DisplayNamesOptions(Region, None)

  /** The options of the language labels, serialised as `{"type":"language","languageDisplay":"standard"}`. */
  const LanguageNamesOptions: DisplayNamesOptions := DisplayNamesOptions(Language, Some(Standard))

  function TypeName(t: DisplayType): string
  {
    match t
    case Language => "language"
    case Region => "region"
    case Script => "script"
    case Currency => "currency"
    case Calendar => "calendar"
    case DateTimeField => "dateTimeField"
  }

  /** The inverse of TypeName. */
  function ParseTypeName(s: string): Option<DisplayType>
  {
    if s == "language" then Some(Language)
    else if s == "region" then Some(Region)
    else if s == "script" then Some(Script)
    else if s == "currency" then Some(Currency)
    else if s == "calendar" then Some(Calendar)
    else if s == "dateTimeField" then Some(DateTimeField)
    else None
  }

  function LanguageDisplayName(d: LanguageDisplay): string
  {
    match d
    case Dialect => "dialect"
    case Standard => "standard"
  }

  /** The `languageDisplay` member of the JSON text, absent when the option is. */
  function LanguageDisplayMember(d: Option<LanguageDisplay>): string
  {
    match d
    case None => ""
    case Some(v) => ",\"languageDisplay\":\"" + (LanguageDisplayName(v) + "\"")
  }

  /**
   * `JSON.stringify` of the options object: members in insertion order, undefined
   * members left out, and no escaping, since no name needs any.
   */
  function Serialize(o: DisplayNamesOptions): (r: string)
    ensures |r| > 0 && r[0] == '{'
  {
    "{\"type\":\"" + (TypeName(o.kind) + ("\"" + (LanguageDisplayMember(o.languageDisplay) + "}")))
  }

  /** The region-label options serialise to the JSON text `JSON.stringify` gives for them. */
  lemma SerializeRegionNamesOptions()
    ensures Serialize(RegionNamesOptions) == "{\"type\":\"region\"}"
  {
  }

  /** The language-label options serialise to the JSON text `JSON.stringify` gives for them. */
  lemma SerializeLanguageNamesOptions()
    ensures Serialize(LanguageNamesOptions) == "{\"type\":\"language\",\"languageDisplay\":\"standard\"}"
  {
    assert LanguageDisplayMember(Some(Standard)) == ",\"languageDisplay\":\"standard\"";
    assert TypeName(Language) == "language";
  }

  /** No type name contains a double quote, and each one parses back. */
  lemma TypeNameRoundTrip(t: DisplayType)
    ensures ParseTypeName(TypeName(t)) == Some(t)
    ensures Excludes(TypeName(t), '"')
  {
  }

  /** The `languageDisplay` member determines the option it was written for. */
  lemma LanguageDisplayMemberInjective(d1: Option<LanguageDisplay>, d2: Option<LanguageDisplay>)
    requires LanguageDisplayMember(d1) == LanguageDisplayMember(d2)
    ensures d1 == d2
  {
  }

  /** Different options serialise to different JSON texts. */
  lemma SerializeInjective(o1: DisplayNamesOptions, o2: DisplayNamesOptions)
    requires Serialize(o1) == Serialize(o2)
    ensures o1 == o2
  {
    var p := "{\"type\":\"";
    var t1, t2 := TypeName(o1.kind), TypeName(o2.kind);
    var m1, m2 := LanguageDisplayMember(o1.languageDisplay), LanguageDisplayMember(o2.languageDisplay);
    CancelPrefix(p, t1 + ("\"" + (m1 + "}")), t2 + ("\"" + (m2 + "}")));
    TypeNameRoundTrip(o1.kind);
    TypeNameRoundTrip(o2.kind);
    SplitAtFirst(t1, "\"" + (m1 + "}"), t2, "\"" + (m2 + "}"), '"');
    CancelPrefix("\"", m1 + "}", m2 + "}");
    CancelSuffix(m1, m2, "}");
    LanguageDisplayMemberInjective(o1.languageDisplay, o2.languageDisplay);
  }

  // ---------------------------------------------------------------------------
  // The cache key
  // ---------------------------------------------------------------------------

  /**
   * The cache key: the resolved locales as a string, followed by the serialised options.
   * Its first `{` is where the options begin.
   */
  function CacheKey(locales: seq<LanguageTag>, opts: DisplayNamesOptions): (k: string)
    ensures FirstIndexOf(k, '{') == |LocaleString(locales)|
    ensures k[|LocaleString(locales)|..] == Serialize(opts)
  {
    FirstIndexOfSplit(LocaleString(locales), Serialize(opts), '{');
    LocaleString(locales) + Serialize(opts)
  }

  /**
   * Keys never collide: equal keys come from equal resolved locales and equal options,
   * because a tag contains neither the `,` that separates tags nor the `{` that opens the options.
   */
  lemma CacheKeyInjective(l1: seq<LanguageTag>, o1: DisplayNamesOptions, l2: seq<LanguageTag>, o2: DisplayNamesOptions)
    requires CacheKey(l1, o1) == CacheKey(l2, o2)
    ensures l1 == l2 && o1 == o2
  {
    TagsExclude(l1, '{');
    TagsExclude(l2, '{');
    JoinExcludes(l1, ',', '{');
    JoinExcludes(l2, ',', '{');
    SplitAtFirst(LocaleString(l1), Serialize(o1), LocaleString(l2), Serialize(o2), '{');
    TagsExclude(l1, ',');
    TagsExclude(l2, ',');
    JoinInjective(l1, l2, ',');
    SerializeInjective(o1, o2);
  }

  /** Tags contain no character outside letters, digits and hyphens. */
  lemma TagsExclude(locales: seq<LanguageTag>, c: char)
    requires !IsTagChar(c)
    ensures forall i :: 0 <= i < |locales| ==> locales[i] != [] && Excludes(locales[i], c)
  {
  }

  // ---------------------------------------------------------------------------
  // How many formatters a sequence of calls builds
  // ---------------------------------------------------------------------------

  /** The distinct keys in `keys`. */
  function Distinct(keys: seq<string>): set<string>
  {
    set i | 0 <= i < |keys| :: keys[i]
  }

  predicate NoDuplicates(s: seq<string>)
  {
    forall i, j :: 0 <= i < j < |s| ==> s[i] != s[j]
  }

  /**
   * The keys for which formatters are built, in order, when calls with `keys` reach
   * an empty cache: a key is built on its first occurrence only.
   */
  function Constructions(keys: seq<string>): seq<string>
    decreases |keys|
  {
    if keys == [] then []
    else
      var earlier, last := keys[..|keys| - 1], keys[|keys| - 1];
      Constructions(earlier) + (if last in Distinct(earlier) then [] else [last])
  }

  /** One more call: a new key is added to the distinct keys and built, a known one is not. */
  lemma ConstructionsSnoc(keys: seq<string>, key: string)
    ensures Distinct(keys + [key]) == Distinct(keys) + {key}
    ensures Constructions(keys + [key]) == Constructions(keys) + (if key in Distinct(keys) then [] else [key])
  {
  }

  /**
   * Over any sequence of calls, each key is built once: the built keys have no repeats,
   * are exactly the distinct keys requested, and so are as many as those.
   */
  lemma {:induction false} ConstructionsOncePerKey(keys: seq<string>)
    ensures NoDuplicates(Constructions(keys))
    ensures Distinct(Constructions(keys)) == Distinct(keys)
    ensures |Constructions(keys)| == |Distinct(keys)|
    decreases |keys|
  {
    if keys != [] {
      var earlier, last := keys[..|keys| - 1], keys[|keys| - 1];
      assert keys == earlier + [last];
      ConstructionsOncePerKey(earlier);
      ConstructionsSnoc(earlier, last);
      var c := Constructions(earlier);
      if last in Distinct(earlier) {
        assert Constructions(keys) == c;
        assert Distinct(keys) == Distinct(earlier);
      } else {
        ConstructionsSnoc(c, last);
        var c' := c + [last];
        assert Constructions(keys) == c';
        forall i, j | 0 <= i < j < |c'| ensures c'[i] != c'[j] {
          if j == |c| {
            assert c[i] in Distinct(c);
          } else {
            assert c'[i] == c[i] && c'[j] == c[j];
          }
        }
        assert Distinct(c') == Distinct(c) + {last};
        assert |Distinct(c')| == |Distinct(c)| + 1;
        assert |Distinct(keys)| == |Distinct(earlier)| + 1;
      }
    }
  }

  // ---------------------------------------------------------------------------
  // Formatters and the cache
  // ---------------------------------------------------------------------------

  /** A display-name formatter; each construction yields a new object, told apart by identity. */
  class DisplayNames {
    const locales: seq<LanguageTag>
    const options: DisplayNamesOptions

    constructor (locales: seq<LanguageTag>, options: DisplayNamesOptions)
      ensures this.locales == locales && this.options == options
    {
      this.locales := locales;
      this.options := options;
    }
  }

  /**
   * The formatter cache. `supportedLocalesOf` is the platform's locale resolution, a
   * fixed function of the locales argument that fails with a RangeError on malformed tags.
   */
  class DisplayNamesCache {
    const supportedLocalesOf: LocalesArgument -> Option<seq<LanguageTag>>
    var entries: map<string, DisplayNames>
    /** The keys of all calls that got as far as computing a key, in call order. */
    ghost var requested: seq<string>
    /** The keys for which a formatter was built, in construction order. */
    ghost var constructed: seq<string>

    /**
     * The keys present are the keys requested so far, formatters were built exactly as
     * Constructions says, and every entry holds a formatter for the locales and options
     * its key encodes.
     */
    ghost predicate Valid()
      reads this
    {
      && entries.Keys == Distinct(requested)
      && constructed == Constructions(requested)
      && forall k :: k in entries ==> k == CacheKey(entries[k].locales, entries[k].options)
    }

    /** The cache as the program starts: empty. */
    constructor (supportedLocalesOf: LocalesArgument -> Option<seq<LanguageTag>>)
      ensures Valid()
      ensures this.supportedLocalesOf == supportedLocalesOf
      ensures entries == map[] && requested == [] && constructed == []
    {
      this.supportedLocalesOf := supportedLocalesOf;
      entries := map[];
      requested := [];
      constructed := [];
    }

    /**
     * Get-or-create. A malformed locales argument fails before the cache is touched.
     * Otherwise an entry for the key is returned unchanged when present; when absent one
     * formatter is built for the resolved locales and options, stored and returned.
     */
    method GetDisplayNamesFormatter(locales: LocalesArgument, opts: DisplayNamesOptions)
      returns (r: Result<DisplayNames, Error>)
      requires Valid()
      modifies this
      ensures Valid()
      ensures supportedLocalesOf(locales).None? ==>
        && r == Failure(RangeError)
        && entries == old(entries) && requested == old(requested) && constructed == old(constructed)
      ensures supportedLocalesOf(locales).Some? ==>
        var key := CacheKey(supportedLocalesOf(locales).value, opts);
        && r.Success?
        && r.value.locales == supportedLocalesOf(locales).value && r.value.options == opts
        && entries == old(entries)[key := r.value]
        && requested == old(requested) + [key]
        && (key in old(entries) ==> r.value == old(entries)[key] && entries == old(entries) && constructed == old(constructed))
        && (key !in old(entries) ==> fresh(r.value) && constructed == old(constructed) + [key])
      ensures forall k :: k in old(entries) ==> k in entries && entries[k] == old(entries)[k]
    {
      var resolved := supportedLocalesOf(locales);
      if resolved.None? {
        return Failure(RangeError);
      }
      var locale := resolved.value;
      var cacheKey := CacheKey(locale, opts);
      ConstructionsSnoc(requested, cacheKey);
      requested := requested + [cacheKey];

      if cacheKey in entries {
        var cachedFormatter := entries[cacheKey];
        CacheKeyInjective(cachedFormatter.locales, cachedFormatter.options, locale, opts);
        return Success(cachedFormatter);
      }

      var formatter := new DisplayNames(locale, opts);
      entries := entries[cacheKey := formatter];
      constructed := constructed + [cacheKey];
      return Success(formatter);
    }

    /** In a valid cache each key was built once, and there are as many formatters as keys. */
    lemma OneConstructionPerKey()
      requires Valid()
      ensures NoDuplicates(constructed)
      ensures |constructed| == |entries.Keys| == |Distinct(requested)|
    {
      ConstructionsOncePerKey(requested);
    }
  }

  /**
   * Two calls with the same arguments return the identical formatter (or the same
   * error). Only the first can build one; the second is a hit that changes no entry.
   */
  method RepeatedCallIsStable(cache: DisplayNamesCache, locales: LocalesArgument, opts: DisplayNamesOptions)
    returns (first: Result<DisplayNames, Error>, second: Result<DisplayNames, Error>)
    requires cache.Valid()
    modifies cache
    ensures cache.Valid()
    ensures first == second
    ensures cache.supportedLocalesOf(locales).None? ==>
      cache.entries == old(cache.entries) && cache.constructed == old(cache.constructed)
    ensures cache.supportedLocalesOf(locales).Some? ==>
      var key := CacheKey(cache.supportedLocalesOf(locales).value, opts);
      && first.Success?
      && cache.entries == old(cache.entries)[key := first.value]
      && cache.constructed == old(cache.constructed) + (if key in old(cache.entries) then [] else [key])
  {
    first := cache.GetDisplayNamesFormatter(locales, opts);
    second := cache.GetDisplayNamesFormatter(locales, opts);

  }
}
