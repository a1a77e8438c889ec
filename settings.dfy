/**
 * The configuration field validators of `config/settings.py`: five parsers
 * that turn a string-keyed environment snapshot into typed values or raise.
 *
 * Three parsers do not behave as their own messages, comments and the
 * `SeedMode` values say they should. Each of those is modelled twice: the
 * plain name follows the code as it stands, the `Intended` name follows the
 * evident intent, and lemmas below exhibit where the two part ways.
 */
module Settings {
  import opened Wrappers
  import opened PyText

  /** The environment snapshot the parsers read (`Mapping[str, str]`). */
  type Env = map<string, string>

  /** The categories of `ConfigError` that the messages distinguish. */
  datatype ConfigErrorKind = MissingVariable | InvalidFormat | InvalidEnumValue | DependentFieldMissing

  /**
   * What a parser raises: the module's own `ConfigError`, classified by the
   * model into a kind (the source class has no such field), or any other
   * exception derived from Python's `Exception`, named by its type.
   */
  datatype Exception = ConfigError(kind: ConfigErrorKind, message: string) | OtherError(typeName: string)

  /** A parser either returns a value or raises. */
  datatype Result<+T> = Ok(value: T) | Raised(exception: Exception)

  /** `SeedMode`, with the enum member values. */
  datatype SeedMode = Today | Fixed {
    function Value(): string {
      match this
      case Today => "today"
      case Fixed => "fixed"
    }
  }

  /** The `Settings` dataclass (it validates nothing itself). */
  datatype Settings = Settings(
    feedUrls: seq<string>,
    maxItems: int,
    timezone: string,
    seedMode: SeedMode,
    fixedSeed: Option<int>)

  const FeedUrlsKey := "FEED_URLS"
  const MaxItemsKey := "MAX_ITEMS"
  const TimezoneKey := "TIMEZONE"
  const SeedModeKey := "RANDOM_SEED_MODE"
  const FixedSeedKey := "FIXED_RANDOM_SEED"

  const DefaultMaxItems := "25"
  const DefaultSeedMode := "today"

  /** `env.get(key)`. */
  function Get(env: Env, key: string): (r: Option<string>)
    ensures r.Some? <==> key in env
    ensures r.Some? ==> r.value == env[key]
  {
    if key in env then Some(env[key]) else None
  }

  /** A string Python's `if not x` rejects, or one that `x.strip() == ""` finds blank. */
  predicate Blank(s: string) {
    Strip(s) == ""
  }

  // ---------------------------------------------------------------- FEED_URLS

  predicate IsHttpUrl(u: string) {
    StartsWith(u, "http://") || StartsWith(u, "https://")
  }

  /** `[u.strip() for u in parts if u.strip()]`. */
  function CleanFragments(parts: seq<string>): (urls: seq<string>)
    ensures |urls| <= |parts|
    ensures forall i :: 0 <= i < |urls| ==> urls[i] != "" && Unpadded(urls[i])
  {
    if parts == [] then []
    else
      var u := Strip(parts[0]);
      StripShape(parts[0]);
      (if u != "" then [u] else []) + CleanFragments(parts[1..])
  }

  const FeedUrlsMissingMessage := "Missing required environment variable: 'FEED_URLS'"
  const FeedUrlsEmptyMessage := "FEED_URLS is required (comma-separated) and cannot be empty."

  function FeedUrlsFormatMessage(value: string): string {
    "Invalid URL format for 'FEED_URLS': '" + value + "'"
  }

  /** `parse_feed_urls`. */
  function ParseFeedUrls(env: Env): (r: Result<seq<string>>)
    ensures r.Ok? ==> r.value != [] && forall i :: 0 <= i < |r.value| ==> IsHttpUrl(r.value[i])
    ensures r.Raised? ==> r.exception.ConfigError?
  {
    var v := Get(env, FeedUrlsKey);
    if v.None? || v.value == "" then Raised(ConfigError(MissingVariable, FeedUrlsMissingMessage))
    else
      var urls := CleanFragments(Split(v.value, ','));
      if urls == [] then Raised(ConfigError(InvalidFormat, FeedUrlsEmptyMessage))
      else if exists i :: 0 <= i < |urls| && !IsHttpUrl(urls[i]) then
        Raised(ConfigError(InvalidFormat, FeedUrlsFormatMessage(v.value)))
      else Ok(urls)
  }

  /** Fragment cleaning works fragment by fragment, so it keeps the order of the input. */
  lemma {:induction false} CleanFragmentsAppend(a: seq<string>, b: seq<string>)
    ensures CleanFragments(a + b) == CleanFragments(a) + CleanFragments(b)
  {
    if a == [] {
      assert a + b == b;
    } else {
      var head := if Strip(a[0]) != "" then [Strip(a[0])] else [];
      assert (a + b)[0] == a[0] && (a + b)[1..] == a[1..] + b;
      assert CleanFragments(a + b) == head + CleanFragments(a[1..] + b);
      CleanFragmentsAppend(a[1..], b);
      assert head + (CleanFragments(a[1..]) + CleanFragments(b)) == (head + CleanFragments(a[1..])) + CleanFragments(b);
    }
  }

  /** A url is kept exactly when some fragment strips down to it, so duplicates are kept and blanks dropped. */
  lemma {:induction false} CleanFragmentsMembers(parts: seq<string>, u: string)
    ensures u in CleanFragments(parts) <==> u != "" && exists i :: 0 <= i < |parts| && Strip(parts[i]) == u
  {
    if parts != [] {
      CleanFragmentsMembers(parts[1..], u);
      if u != "" && Strip(parts[0]) != u && (exists i :: 0 <= i < |parts| && Strip(parts[i]) == u) {
        var i :| 0 <= i < |parts| && Strip(parts[i]) == u;
        assert parts[1..][i - 1] == parts[i];
      }
      if exists i :: 0 <= i < |parts[1..]| && Strip(parts[1..][i]) == u {
        var i :| 0 <= i < |parts[1..]| && Strip(parts[1..][i]) == u;
        assert parts[i + 1] == parts[1..][i];
      }
    }
  }

  /** Fragments that are already clean pass through unchanged. */
  lemma {:induction false} CleanFragmentsOfClean(urls: seq<string>)
    requires forall i :: 0 <= i < |urls| ==> urls[i] != "" && Unpadded(urls[i])
    ensures CleanFragments(urls) == urls
  {
    if urls != [] {
      StripUnpadded(urls[0]);
      CleanFragmentsOfClean(urls[1..]);
    }
  }

  /** An absent or empty FEED_URLS is a missing variable; anything else is not. */
  lemma FeedUrlsMissing(env: Env)
    ensures ParseFeedUrls(env) == Raised(ConfigError(MissingVariable, FeedUrlsMissingMessage))
      <==> FeedUrlsKey !in env || env[FeedUrlsKey] == ""
  {
  }

  /**
   * Any comma-joined list of fragments whose non-blank ones, stripped, all
   * carry an http(s) prefix parses to exactly those stripped fragments, in
   * order.
   */
  lemma FeedUrlsFromFragments(env: Env, parts: seq<string>)
    requires |parts| >= 1 && NoSep(parts, ',')
    requires FeedUrlsKey in env && env[FeedUrlsKey] == Join(parts, ',')
    requires CleanFragments(parts) != []
    requires forall i :: 0 <= i < |CleanFragments(parts)| ==> IsHttpUrl(CleanFragments(parts)[i])
    ensures ParseFeedUrls(env) == Ok(CleanFragments(parts))
  {
    SplitJoin(parts, ',');
  }

  /**
   * In particular clean urls joined with commas split and clean back to
   * themselves, so with an http(s) prefix on each, FeedUrlsFromFragments
   * returns them unchanged.
   */
  lemma FeedFragmentsRoundTrip(urls: seq<string>)
    requires urls != [] && NoSep(urls, ',')
    requires forall i :: 0 <= i < |urls| ==> urls[i] != "" && Unpadded(urls[i])
    ensures CleanFragments(Split(Join(urls, ','), ',')) == urls
  {
    SplitJoin(urls, ',');
    CleanFragmentsOfClean(urls);
  }

  /** A non-empty value whose every fragment is blank (such as " , ") is an empty list. */
  lemma FeedUrlsAllBlank(env: Env)
    requires FeedUrlsKey in env && env[FeedUrlsKey] != ""
    requires forall i :: 0 <= i < |Split(env[FeedUrlsKey], ',')| ==> Blank(Split(env[FeedUrlsKey], ',')[i])
    ensures ParseFeedUrls(env) == Raised(ConfigError(InvalidFormat, FeedUrlsEmptyMessage))
  {
    var parts := Split(env[FeedUrlsKey], ',');
    if CleanFragments(parts) != [] {
      var u := CleanFragments(parts)[0];
      CleanFragmentsMembers(parts, u);
    }
  }

  /**
   * One non-blank fragment without the prefix fails the whole value, and the
   * message quotes the whole original value, not the fragment.
   */
  lemma FeedUrlsBadFragment(env: Env, k: nat)
    requires FeedUrlsKey in env
    requires k < |Split(env[FeedUrlsKey], ',')|
    requires !Blank(Split(env[FeedUrlsKey], ',')[k]) && !IsHttpUrl(Strip(Split(env[FeedUrlsKey], ',')[k]))
    ensures ParseFeedUrls(env) == Raised(ConfigError(InvalidFormat, FeedUrlsFormatMessage(env[FeedUrlsKey])))
  {
    var parts := Split(env[FeedUrlsKey], ',');
    var u := Strip(parts[k]);
    CleanFragmentsMembers(parts, u);
    var urls := CleanFragments(parts);
    var i :| 0 <= i < |urls| && urls[i] == u;
  }

  // ---------------------------------------------------------------- MAX_ITEMS

  /** The string `int()` is applied to: the value, or "25" when absent or blank. */
  function MaxItemsText(env: Env): string {
    var v := Get(env, MaxItemsKey);
    if v.None? || Blank(v.value) then DefaultMaxItems else v.value
  }

  function MaxItemsRangeMessage(n: int): string {
    "MAX_ITEMS must be a positive integer (got: '" + IntToString(n) + "')."
  }

  function MaxItemsFormatMessage(text: string): string {
    "MAX_ITEMS must be a positive integer but got " + text + "."
  }

  /**
   * `parse_max_items` as written: when `int()` fails, the handler formats
   * `value`, which was never bound, so Python raises UnboundLocalError
   * instead of the ConfigError being built.
   */
  function ParseMaxItems(env: Env): (r: Result<int>)
    ensures r.Ok? ==> r.value > 0
  {
    match ParseInt(MaxItemsText(env))
    case None => Raised(OtherError("UnboundLocalError"))
    case Some(n) => if n <= 0 then Raised(ConfigError(InvalidFormat, MaxItemsRangeMessage(n))) else Ok(n)
  }

  /** `parse_max_items` as intended: a non-integer is a ConfigError quoting the text read. */
  function ParseMaxItemsIntended(env: Env): (r: Result<int>)
    ensures r.Ok? ==> r.value > 0
    ensures r.Raised? ==> r.exception.ConfigError? && r.exception.kind == InvalidFormat
  {
    var text := MaxItemsText(env);
    match ParseInt(text)
    case None => Raised(ConfigError(InvalidFormat, MaxItemsFormatMessage(text)))
    case Some(n) => if n <= 0 then Raised(ConfigError(InvalidFormat, MaxItemsRangeMessage(n))) else Ok(n)
  }

  lemma ParseDefaultMaxItems()
    ensures ParseInt(DefaultMaxItems) == Some(25)
  {
    ParseIntToString(25);
    assert IntToString(25) == DefaultMaxItems;
  }

  /** An absent or blank MAX_ITEMS gives 25, in both versions. */
  lemma MaxItemsDefault(env: Env)
    requires MaxItemsKey !in env || Blank(env[MaxItemsKey])
    ensures ParseMaxItems(env) == Ok(25) && ParseMaxItemsIntended(env) == Ok(25)
  {
    ParseDefaultMaxItems();
  }

  /** Every positive integer, written the way `str()` writes it, is accepted as itself. */
  lemma MaxItemsAcceptsPositive(n: int)
    requires n > 0 && FitsStrDigits(n)
    ensures ParseMaxItems(map[MaxItemsKey := IntToString(n)]) == Ok(n)
    ensures ParseMaxItemsIntended(map[MaxItemsKey := IntToString(n)]) == Ok(n)
  {
    ParseIntToString(n);
  }

  /** Any text `int()` reads as a positive integer, "+7", "007" or " 7 " alike, is accepted as that integer. */
  lemma MaxItemsAcceptsAnyPositiveText(env: Env, n: int)
    requires MaxItemsKey in env && ParseInt(env[MaxItemsKey]) == Some(n) && n > 0
    ensures ParseMaxItems(env) == Ok(n) && ParseMaxItemsIntended(env) == Ok(n)
  {
  }

  /**
   * A digit run longer than Python's int/str conversion limit is not an
   * integer to `int()`: UnboundLocalError as written, the format ConfigError
   * as intended.
   */
  lemma MaxItemsDigitLimit(env: Env)
    requires MaxItemsKey in env && AllDigits(env[MaxItemsKey]) && |env[MaxItemsKey]| > MaxStrDigits
    ensures ParseMaxItems(env) == Raised(OtherError("UnboundLocalError"))
    ensures ParseMaxItemsIntended(env) == Raised(ConfigError(InvalidFormat, MaxItemsFormatMessage(env[MaxItemsKey])))
  {
    var v := env[MaxItemsKey];
    ParseIntTooManyDigits(v);
    assert !Blank(v) by {
      assert IsDigit(v[0]) && IsDigit(v[|v| - 1]);
      StripUnpadded(v);
    }
  }

  /** Zero and negative integers are rejected with a ConfigError, in both versions. */
  lemma MaxItemsRejectsNonPositive(env: Env, n: int)
    requires MaxItemsKey in env && ParseInt(env[MaxItemsKey]) == Some(n) && n <= 0
    ensures ParseMaxItems(env) == Raised(ConfigError(InvalidFormat, MaxItemsRangeMessage(n)))
    ensures ParseMaxItemsIntended(env) == Raised(ConfigError(InvalidFormat, MaxItemsRangeMessage(n)))
  {
  }

  /**
   * A present, non-blank MAX_ITEMS that is not an integer: as written the
   * escaping exception is not a ConfigError; as intended it is one.
   */
  lemma MaxItemsNonInteger(env: Env)
    requires MaxItemsKey in env && !Blank(env[MaxItemsKey]) && ParseInt(env[MaxItemsKey]).None?
    ensures ParseMaxItems(env) == Raised(OtherError("UnboundLocalError"))
    ensures ParseMaxItemsIntended(env) == Raised(ConfigError(InvalidFormat, MaxItemsFormatMessage(env[MaxItemsKey])))
  {
  }

  /** Wherever `int()` succeeds, the two versions agree. */
  lemma MaxItemsVersionsAgree(env: Env)
    requires ParseInt(MaxItemsText(env)).Some?
    ensures ParseMaxItems(env) == ParseMaxItemsIntended(env)
  {
  }

  // ---------------------------------------------------------------- TIMEZONE

  const TimezoneMissingMessage := "TIMEZONE is required."
  const TimezoneInvalidMessage := "TIMEZONE must be a valid IANA name (e.g., 'Asia/Bahrain')."

  /**
   * `parse_timezone`. `zones` is the set of keys the IANA time zone database
   * behind `ZoneInfo` accepts.
   */
  function ParseTimezone(env: Env, zones: set<string>): (r: Result<string>)
    ensures r.Ok? ==> TimezoneKey in env && r.value == env[TimezoneKey] && r.value in zones && !Blank(r.value)
    ensures r.Raised? ==> r.exception.ConfigError?
  {
    var v := Get(env, TimezoneKey);
    if v.None? || v.value == "" || Blank(v.value) then Raised(ConfigError(MissingVariable, TimezoneMissingMessage))
    else if v.value !in zones then Raised(ConfigError(InvalidFormat, TimezoneInvalidMessage))
    else Ok(v.value)
  }

  /** The timezone parser's three outcomes, each exactly characterised. */
  lemma TimezoneOutcomes(env: Env, zones: set<string>)
    ensures ParseTimezone(env, zones) == Raised(ConfigError(MissingVariable, TimezoneMissingMessage))
      <==> TimezoneKey !in env || Blank(env[TimezoneKey])
    ensures ParseTimezone(env, zones) == Raised(ConfigError(InvalidFormat, TimezoneInvalidMessage))
      <==> TimezoneKey in env && !Blank(env[TimezoneKey]) && env[TimezoneKey] !in zones
    ensures ParseTimezone(env, zones).Ok?
      <==> TimezoneKey in env && !Blank(env[TimezoneKey]) && env[TimezoneKey] in zones
  {
    if TimezoneKey in env && env[TimezoneKey] == "" {
      assert Strip("") == "";
    }
  }

  // ---------------------------------------------------------------- RANDOM_SEED_MODE

  /** The mode text compared: "today" when absent, otherwise the value trimmed and lower-cased. */
  function NormalizedSeedMode(env: Env): string {
    var v := Get(env, SeedModeKey);
    if v.None? then DefaultSeedMode else Lower(Strip(v.value))
  }

  function SeedModeMessage(mode: string): string {
    "RANDOM_SEED_MODE must be 'today' or 'fixed' (got: '" + mode + "')."
  }

  /** `parse_seed_mode` as written: the lower-cased text is compared with upper-case literals. */
  function ParseSeedMode(env: Env): (r: Result<SeedMode>)
    ensures r.Ok? ==> NormalizedSeedMode(env) == (if r.value.Today? then "TODAY" else "FIXED")
    ensures r.Raised? ==> r.exception == ConfigError(InvalidEnumValue, SeedModeMessage(NormalizedSeedMode(env)))
  {
    var mode := NormalizedSeedMode(env);
    if mode == "TODAY" then Ok(Today)
    else if mode == "FIXED" then Ok(Fixed)
    else Raised(ConfigError(InvalidEnumValue, SeedModeMessage(mode)))
  }

  /** `parse_seed_mode` as intended: the text is compared with the enum values. */
  function ParseSeedModeIntended(env: Env): (r: Result<SeedMode>)
    ensures r.Ok? ==> NormalizedSeedMode(env) == r.value.Value()
    ensures r.Raised? ==> NormalizedSeedMode(env) != Today.Value() && NormalizedSeedMode(env) != Fixed.Value()
    ensures r.Raised? ==> r.exception == ConfigError(InvalidEnumValue, SeedModeMessage(NormalizedSeedMode(env)))
  {
    var mode := NormalizedSeedMode(env);
    if mode == Today.Value() then Ok(Today)
    else if mode == Fixed.Value() then Ok(Fixed)
    else Raised(ConfigError(InvalidEnumValue, SeedModeMessage(mode)))
  }

  /** The normalised text never holds an upper-case letter, so it can never equal "TODAY" or "FIXED". */
  lemma NormalizedSeedModeHasNoUpper(env: Env)
    ensures forall i :: 0 <= i < |NormalizedSeedMode(env)| ==> !IsUpper(NormalizedSeedMode(env)[i])
  {
    var v := Get(env, SeedModeKey);
    if v.Some? {
      LowerHasNoUpper(Strip(v.value));
    }
  }

  /** As written, every environment, the default included, fails with an invalid-enum ConfigError. */
  lemma SeedModeAlwaysFails(env: Env)
    ensures ParseSeedMode(env) == Raised(ConfigError(InvalidEnumValue, SeedModeMessage(NormalizedSeedMode(env))))
  {
    var mode := NormalizedSeedMode(env);
    NormalizedSeedModeHasNoUpper(env);
    if mode == "TODAY" || mode == "FIXED" {
      assert IsUpper(mode[0]);
    }
  }

  /** As intended, an absent mode is Today, and each enum value names its own mode. */
  lemma SeedModeIntendedValues(m: SeedMode)
    ensures ParseSeedModeIntended(map[]) == Ok(Today)
    ensures ParseSeedModeIntended(map[SeedModeKey := m.Value()]) == Ok(m)
  {
    var v := m.Value();
    assert v[0] != ' ' && v[|v| - 1] != ' ';
    StripUnpadded(v);
    assert Lower(v) == v;
  }

  /** As intended, surrounding whitespace and letter case do not matter. */
  lemma SeedModeIntendedIgnoresCaseAndPadding(env: Env, pre: string, post: string)
    requires SeedModeKey in env && AllSpace(pre) && AllSpace(post)
    ensures ParseSeedModeIntended(env[SeedModeKey := pre + env[SeedModeKey] + post])
      == ParseSeedModeIntended(env)
    ensures ParseSeedModeIntended(env[SeedModeKey := Lower(env[SeedModeKey])])
      == ParseSeedModeIntended(env)
  {
    StripIgnoresPadding(pre, env[SeedModeKey], post);
    LowerStripCommute(env[SeedModeKey]);
  }

  /** Lower-casing and stripping commute, and lower-casing twice is lower-casing once. */
  lemma LowerStripCommute(s: string)
    ensures Lower(Strip(Lower(s))) == Lower(Strip(s))
  {
    var i, j := StripBounds(s);
    var l := Lower(s);
    LowerKeepsSpace(s);
    assert l[..i] == Lower(s[..i]) && l[j..] == Lower(s[j..]) && l[i..j] == Lower(s[i..j]);
    assert AllSpace(l[..i]) && AllSpace(l[j..]);
    StripIsUniqueTrim(l, i, j);
    assert Lower(Lower(s[i..j])) == Lower(s[i..j]);
  }

  /** `" FIXED "`, `"Fixed"` and `"fixed"` all name Fixed when parsed as intended. */
  lemma SeedModeIntendedExamples()
    ensures ParseSeedModeIntended(map[SeedModeKey := " FIXED "]) == Ok(Fixed)
    ensures ParseSeedModeIntended(map[SeedModeKey := "Fixed"]) == Ok(Fixed)
    ensures ParseSeedModeIntended(map[SeedModeKey := "fixed"]) == Ok(Fixed)
  {
    StripExamples();
    LowerExamples();
  }

  lemma LowerExamples()
    ensures Lower("FIXED") == "fixed" && Lower("Fixed") == "fixed" && Lower("fixed") == "fixed"
  {
    assert Lower("FIXED") == "fixed";
    assert Lower("Fixed") == "fixed";
    assert Lower("fixed") == "fixed";
  }

  lemma StripExamples()
    ensures Strip(" FIXED ") == "FIXED" && Strip("Fixed") == "Fixed" && Strip("fixed") == "fixed"
  {
    assert Strip("FIXED") == "FIXED" by { StripUnpadded("FIXED"); }
    assert Strip(" FIXED ") == "FIXED" by {
      assert AllSpace(" ");
      StripIgnoresPadding(" ", "FIXED", " ");
      assert " " + "FIXED" + " " == " FIXED ";
    }
    assert Strip("Fixed") == "Fixed" by { StripUnpadded("Fixed"); }
    assert Strip("fixed") == "fixed" by { StripUnpadded("fixed"); }
  }

  // ---------------------------------------------------------------- FIXED_RANDOM_SEED

  const FixedSeedMissingMessage := "FIXED_RANDOM_SEED is required when RANDOM_SEED_MODE=fixed."

  function FixedSeedFormatMessage(text: string): string {
    "FIXED_RANDOM_SEED must be an integer (got: '" + text + "')."
  }

  /**
   * `parse_fixed_seed` as written: `int()` runs on `env.get(...)` before the
   * missing/blank check and outside the `try`, so an absent key raises
   * TypeError (`int(None)`) and a blank or non-integer value raises
   * ValueError. The blank check then looks at the parsed integer.
   */
  function ParseFixedSeed(env: Env, mode: SeedMode): (r: Result<Option<int>>)
    ensures r.Ok? ==> (r.value.Some? <==> mode == Fixed)
  {
    if mode.Today? then Ok(None)
    else
      match Get(env, FixedSeedKey)
      case None => Raised(OtherError("TypeError"))
      case Some(v) =>
        match ParseInt(v)
        case None => Raised(OtherError("ValueError"))
        case Some(n) =>
          if Blank(IntToString(n)) then Raised(ConfigError(DependentFieldMissing, FixedSeedMissingMessage))
          else Ok(Some(n))
  }

  /** `parse_fixed_seed` as intended: missing or blank, then non-integer, each a ConfigError. */
  function ParseFixedSeedIntended(env: Env, mode: SeedMode): (r: Result<Option<int>>)
    ensures r.Ok? ==> (r.value.Some? <==> mode == Fixed)
    ensures r.Raised? ==> r.exception.ConfigError?
  {
    if mode.Today? then Ok(None)
    else
      var v := Get(env, FixedSeedKey);
      if v.None? || Blank(v.value) then Raised(ConfigError(DependentFieldMissing, FixedSeedMissingMessage))
      else
        match ParseInt(v.value)
        case None => Raised(ConfigError(InvalidFormat, FixedSeedFormatMessage(v.value)))
        case Some(n) => Ok(Some(n))
  }

  /** The rendering of an integer is never blank, so the as-written blank check can never fire. */
  lemma IntToStringNotBlank(n: int)
    ensures !Blank(IntToString(n))
  {
    var s := IntToString(n);
    StripShape(s);
    assert !IsSpace(s[0]);
  }

  /** Today never needs, and never reads, FIXED_RANDOM_SEED. */
  lemma FixedSeedToday(env: Env)
    ensures ParseFixedSeed(env, Today) == Ok(None) && ParseFixedSeedIntended(env, Today) == Ok(None)
  {
  }

  /** Under Fixed, an integer value is returned as read, in both versions. */
  lemma FixedSeedInteger(env: Env, n: int)
    requires FixedSeedKey in env && ParseInt(env[FixedSeedKey]) == Some(n)
    ensures ParseFixedSeed(env, Fixed) == Ok(Some(n))
    ensures ParseFixedSeedIntended(env, Fixed) == Ok(Some(n))
  {
    IntToStringNotBlank(n);
  }

  /** Under Fixed, a missing key: TypeError as written, a dependent-field ConfigError as intended. */
  lemma FixedSeedMissing(env: Env)
    requires FixedSeedKey !in env
    ensures ParseFixedSeed(env, Fixed) == Raised(OtherError("TypeError"))
    ensures ParseFixedSeedIntended(env, Fixed) == Raised(ConfigError(DependentFieldMissing, FixedSeedMissingMessage))
  {
  }

  /** Under Fixed, a blank value: ValueError as written, a dependent-field ConfigError as intended. */
  lemma FixedSeedBlank(env: Env)
    requires FixedSeedKey in env && Blank(env[FixedSeedKey])
    ensures ParseFixedSeed(env, Fixed) == Raised(OtherError("ValueError"))
    ensures ParseFixedSeedIntended(env, Fixed) == Raised(ConfigError(DependentFieldMissing, FixedSeedMissingMessage))
  {
  }

  /** Under Fixed, a digit run beyond the conversion limit: ValueError as written, a format ConfigError as intended. */
  lemma FixedSeedDigitLimit(env: Env)
    requires FixedSeedKey in env && AllDigits(env[FixedSeedKey]) && |env[FixedSeedKey]| > MaxStrDigits
    ensures ParseFixedSeed(env, Fixed) == Raised(OtherError("ValueError"))
    ensures ParseFixedSeedIntended(env, Fixed) == Raised(ConfigError(InvalidFormat, FixedSeedFormatMessage(env[FixedSeedKey])))
  {
    var v := env[FixedSeedKey];
    ParseIntTooManyDigits(v);
    assert !Blank(v) by {
      assert IsDigit(v[0]) && IsDigit(v[|v| - 1]);
      StripUnpadded(v);
    }
  }

  /** Under Fixed, a non-blank non-integer: ValueError as written, a format ConfigError as intended. */
  lemma FixedSeedNonInteger(env: Env)
    requires FixedSeedKey in env && !Blank(env[FixedSeedKey]) && ParseInt(env[FixedSeedKey]).None?
    ensures ParseFixedSeed(env, Fixed) == Raised(OtherError("ValueError"))
    ensures ParseFixedSeedIntended(env, Fixed) == Raised(ConfigError(InvalidFormat, FixedSeedFormatMessage(env[FixedSeedKey])))
  {
  }

  // ---------------------------------------------------------------- Settings invariant

  /** The constraints the `Settings` fields are meant to satisfy. */
  predicate WellFormed(s: Settings, zones: set<string>) {
    && s.feedUrls != []
    && (forall i :: 0 <= i < |s.feedUrls| ==> IsHttpUrl(s.feedUrls[i]))
    && s.maxItems > 0
    && s.timezone in zones
    && (s.fixedSeed.Some? <==> s.seedMode == Fixed)
  }

  /** Whatever the five validators accept together forms a well-formed `Settings`. */
  lemma ValidatorsEstablishWellFormed(env: Env, zones: set<string>)
    ensures var feeds, count, zone, mode := ParseFeedUrls(env), ParseMaxItemsIntended(env),
                                            ParseTimezone(env, zones), ParseSeedModeIntended(env);
      feeds.Ok? && count.Ok? && zone.Ok? && mode.Ok? && ParseFixedSeedIntended(env, mode.value).Ok? ==>
      WellFormed(Settings(feeds.value, count.value, zone.value, mode.value,
                          ParseFixedSeedIntended(env, mode.value).value), zones)
  {
  }
}
