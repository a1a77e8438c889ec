# AI_reporter configuration, article identity and entry point, in Dafny

AI_reporter turns RSS feeds into a digest. This project models three parts of it as pure Dafny functions and proves properties about them:

- `config/settings.py`: the validators that turn the environment into a `Settings` value or raise `ConfigError`.
- `core/models.py`: the `Article` record and `generate_article_id`.
- `run_digest.py`: `_preview_urls` and the exit status chosen by `main`.

Files and modules:

- `wrappers.dfy` (module `Wrappers`): `Option`, for Python's `Optional[...]` and for lookups and parses that can come back empty.
- `py_text.dfy` (module `PyText`): the parts of Python's `str` the validators rely on.
  - `strip()` over Python's whitespace set.
  - ASCII `lower()`.
  - `split(",")` and its inverse join.
  - `startswith`.
  - A subset of `int()`: surrounding whitespace, an optional sign, ASCII digits, at most 4300 of them (CPython's default int/str conversion limit).
  - `str()` of an integer.
- `settings.dfy` (module `Settings`): the five validators.
  - A validator returns `Ok(value)` or `Raised(exception)`.
  - The exception is either a `ConfigError` or any other exception derived from Python's `Exception`, named by its type.
  - `ConfigError` carries the message the source builds, word for word, and a kind (missing variable, invalid format, invalid enum value, dependent field missing). The kind is this model's classification of the messages: the source's `ConfigError` class has no such field.
  - Three validators do not do what their messages, comments and the `SeedMode` values say. For those, the plain name (`ParseMaxItems`, `ParseSeedMode`, `ParseFixedSeed`) follows the code as written. The `...Intended` twin follows the evident intent. Lemmas show where the two differ (see Findings).
- `models.dfy` (module `Models`): `Article` with its defaults, the lowercase hex rendering of a digest and `generate_article_id`.
  - BLAKE2b with a 12-byte digest, UTF-8 encoding and `datetime.isoformat` are outside the model. They are passed in as the fields of a `Primitives` value.
  - Only the digest length is fixed.
  - The fallback id is `"missing_url"`, as the code returns (core/models.py:57). The docstring at core/models.py:24 says `"missing_id"`.
- `run_digest.dfy` (module `RunDigest`): `_preview_urls`, and `main` as a function from outcomes to the status and the listed urls.
  - The outcomes are those of `load_settings()` and `effective_seed(...)`.
  - A `ConfigError` gives 2, any other exception gives 1, and success gives 0.

## Model

| member | source | states |
|---|---|---|
| PyText.StripShape | config/settings.py:47 | `strip()` never lengthens; it yields "" exactly for all-whitespace text; its result has no whitespace at either end; it is idempotent |
| PyText.StripIgnoresPadding | config/settings.py:47 | whitespace added around a string does not change what `strip()` returns |
| PyText.StripIsUniqueTrim | config/settings.py:47 | `strip()` is the slice between the whitespace prefix and the whitespace suffix |
| PyText.Split | config/settings.py:47 | `split(",")` always yields at least one part |
| PyText.JoinSplit | config/settings.py:47 | the parts of `split` contain no separator, and joining them gives back the input |
| PyText.SplitJoin | config/settings.py:47 | separator-free parts joined with the separator split back into the same parts |
| PyText.Lower | config/settings.py:123 | `lower()` keeps the length and maps each character on its own |
| PyText.LowerHasNoUpper | config/settings.py:123 | lower-cased text contains no upper-case letter |
| PyText.ParseInt | config/settings.py:75 | `int()` rejects blank text |
| PyText.ParseIntDigits | config/settings.py:75 | a run of at most 4300 ASCII digits reads as its decimal value |
| PyText.ParseIntNegativeDigits | config/settings.py:75 | a minus sign followed by at most 4300 digits reads as the negated value |
| PyText.ParseIntTooManyDigits | config/settings.py:75 | more than 4300 digits, signed or not, is a ValueError |
| PyText.ParseIntFits | config/settings.py:80 | every integer `int()` returns can be written back by `str()` within the 4300-digit limit |
| PyText.ParseIntToString | config/settings.py:80 | `int(str(n)) == n` for every integer of at most 4300 digits |
| PyText.ParseIntIgnoresPadding | config/settings.py:75 | `int()` ignores surrounding whitespace |
| Settings.Get | config/settings.py:40 | `env.get(key)` is present exactly when the key is, with its value |
| Settings.CleanFragments | config/settings.py:47 | the comprehension keeps at most as many fragments as it reads, each non-empty and stripped |
| Settings.CleanFragmentsAppend | config/settings.py:47 | fragments are cleaned one by one, so input order is kept |
| Settings.CleanFragmentsMembers | config/settings.py:47 | a url is kept exactly when it is non-empty and some fragment strips to it: blanks are dropped and duplicates kept |
| Settings.CleanFragmentsOfClean | config/settings.py:47 | already-clean fragments pass through unchanged |
| Settings.ParseFeedUrls | config/settings.py:33-57 | a success is a non-empty list whose every entry starts with `http://` or `https://`; every failure is a ConfigError |
| Settings.FeedUrlsMissing | config/settings.py:39-44 | the missing-variable error is raised exactly when FEED_URLS is absent or "" |
| Settings.FeedUrlsFromFragments | config/settings.py:46-57 | a comma-joined value parses to exactly its stripped non-blank fragments, in order, when all of them carry the prefix |
| Settings.FeedFragmentsRoundTrip | config/settings.py:47 | clean urls joined with commas split and clean back to themselves |
| Settings.FeedUrlsAllBlank | config/settings.py:47-49 | a non-empty value made only of blank fragments (such as " , ") fails with the empty-list error |
| Settings.FeedUrlsBadFragment | config/settings.py:52-54 | one non-blank fragment without the prefix fails the value, and the message quotes the whole original value |
| Settings.ParseMaxItems | config/settings.py:60-83 | as written: any success is strictly positive |
| Settings.ParseMaxItemsIntended | config/settings.py:60-83 | as intended: any success is strictly positive and every failure is an invalid-format ConfigError |
| Settings.ParseDefaultMaxItems | config/settings.py:71 | the default text "25" parses to 25 |
| Settings.MaxItemsDefault | config/settings.py:70-71 | absent or blank MAX_ITEMS gives 25 in both versions |
| Settings.MaxItemsAcceptsPositive | config/settings.py:74-83 | every positive integer of at most 4300 digits, written by `str()`, is accepted as itself |
| Settings.MaxItemsAcceptsAnyPositiveText | config/settings.py:74-83 | any text `int()` reads as a positive integer ("+7", "007", " 7 ") is accepted as that integer, in both versions |
| Settings.MaxItemsDigitLimit | config/settings.py:74-77 | more than 4300 digits raises UnboundLocalError as written and the format ConfigError as intended |
| Settings.MaxItemsRejectsNonPositive | config/settings.py:79-80 | zero and negative integers fail with the range ConfigError quoting the number |
| Settings.MaxItemsNonInteger | config/settings.py:74-77 | a non-integer raises UnboundLocalError as written and the format ConfigError as intended |
| Settings.MaxItemsVersionsAgree | config/settings.py:74-83 | wherever `int()` succeeds, the two versions return the same thing |
| Settings.ParseTimezone | config/settings.py:86-106 | a success returns the stored value unchanged (not stripped); that value is a known zone and not blank; every failure is a ConfigError |
| Settings.TimezoneOutcomes | config/settings.py:97-106 | the missing error is raised exactly when TIMEZONE is absent or blank; the invalid-zone error is raised exactly when the value is present, not blank and not a known zone; success happens exactly when the untrimmed value is a known zone |
| Settings.ParseSeedMode | config/settings.py:109-132 | as written: a success needs the normalised text to be "TODAY" or "FIXED"; a failure is the invalid-enum ConfigError quoting the normalised text |
| Settings.ParseSeedModeIntended | config/settings.py:109-132 | as intended: a success is the mode whose enum value equals the normalised text; a failure means the text is neither "today" nor "fixed", and is the invalid-enum ConfigError quoting it |
| Settings.NormalizedSeedModeHasNoUpper | config/settings.py:123 | the trimmed, lower-cased mode text has no upper-case letter |
| Settings.SeedModeAlwaysFails | config/settings.py:123-132 | as written, every environment, the default included, fails with the invalid-enum ConfigError |
| Settings.SeedModeIntendedValues | config/settings.py:17-18 | as intended, an absent mode is TODAY and each enum value selects its own mode |
| Settings.SeedModeIntendedIgnoresCaseAndPadding | config/settings.py:123 | as intended, surrounding whitespace and letter case of the value do not change the outcome |
| Settings.LowerStripCommute | config/settings.py:123 | lower-casing before or after stripping gives the same mode text |
| Settings.SeedModeIntendedExamples | config/settings.py:123 | as intended, " FIXED ", "Fixed" and "fixed" all select FIXED |
| Settings.ParseFixedSeed | config/settings.py:134-152 | as written: a success holds a seed exactly when the mode is FIXED |
| Settings.ParseFixedSeedIntended | config/settings.py:134-152 | as intended: a success holds a seed exactly when the mode is FIXED; every failure is a ConfigError |
| Settings.IntToStringNotBlank | config/settings.py:147 | the text of an integer is never blank, so the blank check after `int()` can never fire |
| Settings.FixedSeedToday | config/settings.py:141-142 | TODAY gives no seed, in both versions, whatever the environment holds |
| Settings.FixedSeedInteger | config/settings.py:146-150 | under FIXED an integer value is returned as read, in both versions |
| Settings.FixedSeedMissing | config/settings.py:146-148 | under FIXED a missing key raises TypeError as written and the dependent-field ConfigError as intended |
| Settings.FixedSeedBlank | config/settings.py:146-148 | under FIXED a blank value raises ValueError as written and the dependent-field ConfigError as intended |
| Settings.FixedSeedDigitLimit | config/settings.py:146-152 | under FIXED more than 4300 digits raises ValueError as written and the format ConfigError as intended |
| Settings.FixedSeedNonInteger | config/settings.py:146-152 | under FIXED a non-integer raises ValueError as written and the format ConfigError as intended |
| Settings.ValidatorsEstablishWellFormed | config/settings.py:22-27 | values accepted by the validators as intended form a `Settings` whose urls, count, zone and seed are all valid |
| Models.ArticleDefaults | core/models.py:8-18 | an `Article` built from an id alone has every optional field absent and no categories |
| Models.HexChar | core/models.py:37 | every nibble renders as a lowercase hex digit |
| Models.HexValue | core/models.py:37 | reading a hex digit back gives the nibble that renders as it |
| Models.Hex | core/models.py:37 | `hexdigest()` output is twice as long as the digest and uses only `0-9a-f` |
| Models.FromHex | core/models.py:37 | reading hex back yields half as many bytes as characters |
| Models.FromHexHex | core/models.py:37 | reading the hex rendering back gives the original bytes |
| Models.HexInjective | core/models.py:37 | two byte strings render alike exactly when they are equal |
| Models.HashedId | core/models.py:28-37 | every hash-based id has 24 characters, all lowercase hex |
| Models.GenerateArticleId | core/models.py:21-57 | every id is the sentinel or a 24-character lowercase hex string |
| Models.SentinelNotHashed | core/models.py:57 | the sentinel is 11 long and starts with a non-hex letter, so it is never a hashed id |
| Models.SentinelExactlyWhenNoKey | core/models.py:27-57 | the sentinel is returned exactly when neither the url nor title plus timestamp is usable; otherwise the id is hashed |
| Models.UrlTakesPriority | core/models.py:27-42 | a non-empty url decides the id alone, as the hex digest of its UTF-8 bytes, whatever the title and timestamp |
| Models.TitleFallback | core/models.py:44-55 | without a usable url, the id is the hex digest of title, a bar and isoformat(published_at) joined together |
| Models.EmptyIsAbsent | core/models.py:27-44 | an empty url or title gives the same id as a missing one |
| Models.UrlIdsCollideOnlyOnDigest | core/models.py:28-37 | two url-based ids are equal exactly when the digests of the urls are |
| RunDigest.PreviewUrls | run_digest.py:18-27 | the preview has length min(len(urls), max(0, n)) and is a prefix of the urls |
| RunDigest.PreviewNonPositive | run_digest.py:23-27 | a count of zero or less previews nothing |
| RunDigest.PreviewWhole | run_digest.py:27 | a count at least the length previews every url |
| RunDigest.PreviewMonotone | run_digest.py:27 | a smaller count previews a prefix of what a larger one does |
| RunDigest.ExitCodeFor | run_digest.py:44-59 | an escaping ConfigError gives 2 and any other `Exception` gives 1 |
| RunDigest.Main | run_digest.py:37-83 | the status is 0 exactly when both steps succeed, and 2 exactly when the first failing step raises ConfigError; otherwise it is 1; urls are listed only on success, and then at most 3, a prefix of the feed urls |
| RunDigest.MainPreview | run_digest.py:64 | on success the listed urls are the first three feed urls, or all of them when there are fewer |
| RunDigest.MaxItemsDefectExitCode | run_digest.py:51-59 | a non-integer MAX_ITEMS whose error reaches `main` gives status 1 as written and 2 as intended |
| RunDigest.FixedSeedDefectExitCode | run_digest.py:51-59 | a missing FIXED_RANDOM_SEED under FIXED whose error reaches `main` gives status 1 as written and 2 as intended |
| RunDigest.SeedModeDefectExitCode | run_digest.py:44-49 | the mode validator as written always fails, and its error gives status 2 |

Helpers that model a source expression and whose properties are the lemmas above:

- `PyText.Strip` is `str.strip()` (config/settings.py:47, 70, 97, 123).
- `PyText.StartsWith` is `str.startswith` (config/settings.py:53).
- `PyText.IntToString` is `str()` of an integer (config/settings.py:80, 147).
- `Settings.NormalizedSeedMode` is the mode text (config/settings.py:123).
- `Settings.MaxItemsText` is the text given to `int()` after the default (config/settings.py:70-71).

## Left out

- Reading the environment (`os.environ`, `.env` files). The validators take the environment as a map.
- `load_settings`, `effective_seed` and the date-based seed derivation: their bodies are not part of this model. `main` is modelled over their outcomes. The lemmas about the defects assume that a validator's exception reaches `main` unchanged.
- The IANA time zone database behind `ZoneInfo`: it is the set of accepted names, `zones`.
- BLAKE2b, UTF-8 encoding and `datetime.isoformat`: they are abstract functions in `Models.Primitives`. Only the 12-byte digest length is fixed.
- PyText.ParseInt: models only part of Python's `int()` grammar: surrounding whitespace, an optional sign, ASCII digits. Underscores between digits and non-ASCII digits are rejected. The 4300-digit limit is CPython's default since 3.11 and in the 3.7-3.10 security releases. Older interpreters have no limit, and `sys.set_int_max_str_digits` or `PYTHONINTMAXSTRDIGITS` can change it; neither is modelled.
- PyText.IntToString: is total. CPython's `str()` raises ValueError past 4300 digits. The model applies it only to integers `int()` produced, which `PyText.ParseIntFits` shows stay within the limit.
- PyText.Lower: models only ASCII `lower()`. Non-ASCII letters are left unchanged.
- PyText.Strip: is proved only over Python's whitespace characters as listed in `PyText.IsSpace`.
- Models.ArticleDefaults: `Article` is a value, so the fresh list per instance (`default_factory=list`) is just an empty sequence. Aliasing between instances is not modelled.
- RunDigest.ExitCodeFor: covers only exceptions derived from `Exception`. KeyboardInterrupt, SystemExit and GeneratorExit are not caught at run_digest.py:51; they leave `main` without a status. `Settings.OtherError` stands only for `Exception` subclasses, so this path is not modelled.
- RunDigest.Main: for the same reason, does not model an exception outside `Exception` escaping `load_settings()` or `effective_seed(...)`, which would end `main` with no return value.
- Models.GenerateArticleId: treats UTF-8 encoding as total. A Python `str` may hold a lone surrogate (as `os.environ` produces under surrogateescape), and then `encode("utf-8")` at core/models.py:31 and 50 raises UnicodeEncodeError. Dafny's `char` cannot hold a lone surrogate, so that failure is not modelled.
- Every `print` in `main`, including the message text of the exceptions it reports.
- The commented-out `sys.exit`: the status `main` returns never reaches the process.
- `sources/rss.py`: it is network fetching through a feed library.
- Determinism of `generate_article_id` holds because every Dafny function is deterministic; there is no separate lemma for it.

## Findings

| source | as written | input that shows it | evidently intended | confidence | as-written member | corrected member |
|---|---|---|---|---|---|---|
| config/settings.py:74-77 | the `except` branch formats `value`, which `int()` never bound, so UnboundLocalError escapes instead of ConfigError | `MAX_ITEMS="abc"` | ConfigError "MAX_ITEMS must be a positive integer but got abc." | not executed | Settings.MaxItemsNonInteger | Settings.ParseMaxItemsIntended |
| config/settings.py:123-132 | the lower-cased mode is compared with "TODAY" and "FIXED", so no input is ever accepted, not even the default | `RANDOM_SEED_MODE` absent (mode "today") | compare with the enum values "today" and "fixed" | not executed | Settings.SeedModeAlwaysFails | Settings.ParseSeedModeIntended |
| config/settings.py:146-148 | `int()` runs on `env.get(...)` before the missing or blank check and outside the `try`, so TypeError or ValueError escapes and the check is dead | `RANDOM_SEED_MODE=fixed` with `FIXED_RANDOM_SEED` absent | ConfigError "FIXED_RANDOM_SEED is required when RANDOM_SEED_MODE=fixed." | not executed | Settings.FixedSeedMissing | Settings.ParseFixedSeedIntended |
