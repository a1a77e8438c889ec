// The entry point's decisions (run_digest.py): the url preview and the exit
// code `main` returns. The printing is left out; `load_settings` and
// `effective_seed` are outside the model and arrive as their outcomes.

module RunDigest {
  import opened Wrappers
  import opened PyText
  import opened Settings

  /** How many urls the summary shows. */
  const PreviewSize := 3

  function Max(a: int, b: int): int { if a >= b then a else b }
  function Min(a: int, b: int): int { if a <= b then a else b }

  /** `_preview_urls`: the first `max(0, n)` urls, or all of them when there are fewer. */
  function PreviewUrls(urls: seq<string>, n: int): (preview: seq<string>)
    ensures |preview| == Min(|urls|, Max(0, n))
    ensures preview <= urls
  {
    urls[..Min(|urls|, Max(0, n))]
  }

  /** A count of zero or less shows nothing. */
  lemma PreviewNonPositive(urls: seq<string>, n: int)
    requires n <= 0
    ensures PreviewUrls(urls, n) == []
  {
  }

  /** A count at least the length shows every url. */
  lemma PreviewWhole(urls: seq<string>, n: int)
    requires n >= |urls|
    ensures PreviewUrls(urls, n) == urls
  {
  }

  /** A smaller count shows a prefix of what a larger one shows. */
  lemma PreviewMonotone(urls: seq<string>, m: int, n: int)
    requires m <= n
    ensures PreviewUrls(urls, m) <= PreviewUrls(urls, n)
  {
  }

  // ---------------------------------------------------------------- main

  /** What `main` ends with: its return value and, on success, the urls it lists. */
  datatype Report = Report(exitCode: int, preview: Option<seq<string>>)

  predicate RaisesConfigError<T>(r: Result<T>) {
    r.Raised? && r.exception.ConfigError?
  }

  /**
   * The status for an exception that escapes the `try`: 2 for ConfigError,
   * 1 for any other `Exception`. (Exceptions outside `Exception`, such as
   * KeyboardInterrupt, are not caught by `main` and are not modelled.)
   */
  function ExitCodeFor(e: Exception): (code: int)
    ensures code == 2 <==> e.ConfigError?
    ensures code == 1 <==> !e.ConfigError?
  {
    match e
    case ConfigError(_, _) => 2
    case OtherError(_) => 1
  }

  /**
   * `main`: load the settings, resolve the seed; either step may raise.
   * `loaded` is the outcome of `load_settings()`, `resolveSeed` that of
   * `effective_seed` on the loaded settings.
   */
  function Main(loaded: Result<Settings>, resolveSeed: Settings -> Result<int>): (r: Report)
    ensures r.exitCode == 0 <==> loaded.Ok? && resolveSeed(loaded.value).Ok?
    ensures r.exitCode == 2
        <==> RaisesConfigError(loaded) || (loaded.Ok? && RaisesConfigError(resolveSeed(loaded.value)))
    ensures r.exitCode == 1 <==> !(r.exitCode == 0 || r.exitCode == 2)
    ensures r.preview.Some? <==> r.exitCode == 0
    ensures r.preview.Some? ==> |r.preview.value| <= PreviewSize && r.preview.value <= loaded.value.feedUrls
  {
    match loaded
    case Raised(e) => Report(ExitCodeFor(e), None)
    case Ok(settings) =>
      match resolveSeed(settings)
      case Raised(e) => Report(ExitCodeFor(e), None)
      case Ok(_) => Report(0, Some(PreviewUrls(settings.feedUrls, PreviewSize)))
  }

  /** On success the preview is the first three feed urls, or all of them when fewer. */
  lemma MainPreview(s: Settings, resolveSeed: Settings -> Result<int>)
    requires resolveSeed(s).Ok?
    ensures Main(Ok(s), resolveSeed).preview == Some(s.feedUrls[..Min(|s.feedUrls|, PreviewSize)])
  {
  }

  // ---------------------------------------------------------------- defects seen from main

  /**
   * A non-integer MAX_ITEMS whose error reaches `main`: status 1 with the
   * validator as written, 2 with the intended one.
   */
  lemma MaxItemsDefectExitCode(env: Env, resolveSeed: Settings -> Result<int>)
    requires MaxItemsKey in env && !Blank(env[MaxItemsKey]) && ParseInt(env[MaxItemsKey]).None?
    ensures Main(Raised(ParseMaxItems(env).exception), resolveSeed).exitCode == 1
    ensures Main(Raised(ParseMaxItemsIntended(env).exception), resolveSeed).exitCode == 2
  {
    MaxItemsNonInteger(env);
  }

  /**
   * A missing FIXED_RANDOM_SEED under the fixed mode: status 1 as written
   * (TypeError), 2 as intended.
   */
  lemma FixedSeedDefectExitCode(env: Env, resolveSeed: Settings -> Result<int>)
    requires FixedSeedKey !in env
    ensures Main(Raised(ParseFixedSeed(env, Fixed).exception), resolveSeed).exitCode == 1
    ensures Main(Raised(ParseFixedSeedIntended(env, Fixed).exception), resolveSeed).exitCode == 2
  {
    FixedSeedMissing(env);
  }

  /** The seed-mode validator as written fails on every input, always with status 2. */
  lemma SeedModeDefectExitCode(env: Env, resolveSeed: Settings -> Result<int>)
    ensures ParseSeedMode(env).Raised?
    ensures Main(Raised(ParseSeedMode(env).exception), resolveSeed).exitCode == 2
  {
    SeedModeAlwaysFails(env);
  }
}
