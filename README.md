# BaseApiTest helpers, modelled in Dafny

This project models the self-contained logic of `BaseApiTest`, the shared
harness that the suite's API and browser tests extend. The harness does the
following:

- reads its configuration from environment variables. `getEnv` falls back to
  a default. `requireEnv` aborts construction with an `IllegalStateException`.
- loads four final fields when a test class is constructed: the base URL,
  the API key, the API secret and a demo e-mail address.
- derives the session cookie's domain from the base URL (`hostFromUrl`).
- builds a throw-away e-mail address from the clock (`randomEmail`).
- builds the `PHPSESSID` cookie that `injectSessionIntoBrowser` adds to the
  browser.

Two modules:

- `JavaStrings` (`java_strings.dfy`) gives the behaviour of the `java.lang`
  operations these helpers call. `String.replace` is one left-to-right pass
  that does not rescan. `String.indexOf` gives -1 when the character is
  absent. `String.trim` drops code points up to U+0020. `String.isBlank`
  tests `Character.isWhitespace`. `Long.toString` writes a non-negative
  value in decimal, and `ParseDecimal` is its inverse.
- `BaseApi` (`base_api.dfy`) holds the helpers, the configuration loading
  and the cookie record, each with lemmas about them.

The process environment is a `map<string, string>`. The clock reading is a
`nat` parameter in milliseconds. An `IllegalStateException` is a `Failure`
that carries its message. The variable names and message fragments that the
source shows masked (`"########"`, `"######"`, `"#######"`, `" (####)"`) are
used exactly as written.

The code differs in four places from what such a harness is usually taken
to do. The model follows the code:

- A cookie-domain helper is usually read as stripping a leading scheme. The code removes every
  occurrence of `"https://"` and then every occurrence of `"http://"`. So
  `"https://ahttps://b"` gives the host `"ab"`
  (`BaseApi.HostFromUrlStripsEveryOccurrence`). For the same reason, the
  host-from-URL property is proved for hosts that do not end with `':'`
  (`BaseApi.HostOfUrlWithPath`). That condition is sufficient, not
  necessary: only a host ending in `"https:"` or `"http:"` lets a scheme
  span the `'/'` after it.
- One might expect cookie injection to fail when the base URL has no host.
  `hostFromUrl` never fails: `"https:///x"` gives the empty domain
  (`BaseApi.HostFromUrlMayBeEmpty`). Whether the browser then accepts a
  cookie with an empty domain is outside the model.
- A fresh identity on every call is not guaranteed. The code is
  injective only in the clock reading (`BaseApi.RandomEmailInjective`). Two
  calls within the same millisecond give the same address.
- `tearDown` never clears the driver field, so a second call calls `quit`
  again. Nothing in `tearDown` itself makes it idempotent; whether a second
  `quit` is harmless depends on the driver, which is outside the model.

A value taken from the environment can be empty even when the variable is
set and not blank. `isBlank` and `trim` use different character sets:
`"\U{1}"` is not blank, yet it trims to `""` (`BaseApi.GetEnvMayBeEmpty`,
`JavaStrings.BlankAndTrimDiffer`).

## Model

| member | source | states |
|---|---|---|
| `JavaStrings.Replace` | src/test/java/BaseApi/BaseApiTest.java:142 | `String.replace` as one left-to-right pass over non-overlapping occurrences. Removing a target never makes the string longer. |
| `JavaStrings.ReplaceKeepsPrefix` | src/test/java/BaseApi/BaseApiTest.java:142 | a prefix in which no occurrence starts passes through the replacement unchanged |
| `JavaStrings.ReplaceAbsent` | src/test/java/BaseApi/BaseApiTest.java:142 | where the target does not occur, the replacement changes nothing |
| `BaseApi.ReplaceDoesNotRescan` | src/test/java/BaseApi/BaseApiTest.java:142 | an occurrence is removed and the two sides are joined without a second scan, so `x + target + y` becomes `x + y` even when that joint forms a new occurrence |
| `BaseApi.ReplaceIsSinglePass` | src/test/java/BaseApi/BaseApiTest.java:142 | removing `"https://"` from `"hthttps://tps://"` leaves a new `"https://"` |
| `JavaStrings.IndexOf` | src/test/java/BaseApi/BaseApiTest.java:143 | -1 exactly when the character is absent. Otherwise the index holds the character and no earlier index does. |
| `JavaStrings.IsWhitespace` | src/test/java/BaseApi/BaseApiTest.java:125-130 | `Character.isWhitespace`: U+0009–U+000D, U+001C–U+0020, U+1680, U+2000–U+200A except U+2007, U+2028, U+2029, U+205F, U+3000 |
| `JavaStrings.WhitespaceBoundaries` | src/test/java/BaseApi/BaseApiTest.java:125-130 | U+0085, U+00A0, U+2007 and U+202F are not whitespace; U+2028 and U+3000 are; up to U+0020 only U+0009–U+000D, U+001C–U+001F and the space are |
| `JavaStrings.IsBlank` | src/test/java/BaseApi/BaseApiTest.java:125-130 | `String.isBlank`: empty, or only `Character.isWhitespace` characters |
| `JavaStrings.IsTrimmable` | src/test/java/BaseApi/BaseApiTest.java:125 | trim's test: a character is removed when it is at most U+0020 |
| `JavaStrings.LeadingCount` | src/test/java/BaseApi/BaseApiTest.java:125 | the length of the longest prefix of characters at most U+0020 |
| `JavaStrings.TrailingCount` | src/test/java/BaseApi/BaseApiTest.java:125 | the length of the longest suffix of characters at most U+0020 |
| `JavaStrings.Trim` | src/test/java/BaseApi/BaseApiTest.java:125 | the result is the slice that starts after the leading trimmable characters. Only trimmable characters follow it. It neither starts nor ends with one. |
| `JavaStrings.TrimFixesTrimmed` | src/test/java/BaseApi/BaseApiTest.java:136 | trim leaves a string with nothing to trim unchanged |
| `JavaStrings.TrimIdempotent` | src/test/java/BaseApi/BaseApiTest.java:136 | trimming twice is the same as trimming once |
| `JavaStrings.BlankAndTrimDiffer` | src/test/java/BaseApi/BaseApiTest.java:130 | isBlank and trim use different sets: `"\U{1}"` is not blank but trims to empty, and U+3000 is blank but survives trim |
| `JavaStrings.Decimal` | src/test/java/BaseApi/BaseApiTest.java:75 | the rendering of the clock reading is non-empty, all digits, with no leading zero |
| `JavaStrings.DecimalRoundTrip` | src/test/java/BaseApi/BaseApiTest.java:75 | reading the decimal rendering back gives the number |
| `JavaStrings.DecimalInjective` | src/test/java/BaseApi/BaseApiTest.java:75 | distinct numbers render as distinct strings |
| `BaseApi.Unset` | src/test/java/BaseApi/BaseApiTest.java:125-130 | `v == null` or `v.isBlank()`: the variable is missing, or its value is blank |
| `BaseApi.Lookup` | src/test/java/BaseApi/BaseApiTest.java:124 | `System.getenv`: a value exactly when the variable is set, and that value is the environment's |
| `BaseApi.GetEnv` | src/test/java/BaseApi/BaseApiTest.java:123-126 | the default when the variable is missing or blank. Otherwise the trimmed value, which has nothing left to trim. |
| `BaseApi.GetEnvValueIsTrimmed` | src/test/java/BaseApi/BaseApiTest.java:125 | a value taken from the environment is unchanged by trimming it again |
| `BaseApi.GetEnvMayBeEmpty` | src/test/java/BaseApi/BaseApiTest.java:125 | a variable set to `"\U{1}"` (U+0001) is neither missing nor blank, yet yields `""` |
| `BaseApi.MissingMessage` | src/test/java/BaseApi/BaseApiTest.java:131-134 | the exception message starts with the fixed prefix, and the key follows right after it |
| `BaseApi.RequireEnv` | src/test/java/BaseApi/BaseApiTest.java:128-137 | fails exactly when the variable is missing or blank, with a message naming the key. Otherwise the trimmed value. |
| `BaseApi.RequireEnvAgreesWithGetEnv` | src/test/java/BaseApi/BaseApiTest.java:123-137 | where requireEnv succeeds, getEnv gives the same value for any default. Where requireEnv fails, getEnv gives its default. |
| `BaseApi.LoadConfig` | src/test/java/BaseApi/BaseApiTest.java:22-31 | construction succeeds exactly when both API variables are set and not blank. The key is reported first when both are missing. On success the fields hold the looked-up values, with the defaults for base URL and e-mail. |
| `BaseApi.StripSchemes` | src/test/java/BaseApi/BaseApiTest.java:142 | removing the schemes never lengthens the URL |
| `BaseApi.HostFromUrl` | src/test/java/BaseApi/BaseApiTest.java:139-145 | the host holds no `'/'`. It is a prefix of the scheme-stripped URL, and is followed there by `'/'` unless it is all of it. |
| `BaseApi.HostFromUrlUnique` | src/test/java/BaseApi/BaseApiTest.java:143-144 | those three properties determine the host uniquely |
| `BaseApi.HostFromUrlWithoutPath` | src/test/java/BaseApi/BaseApiTest.java:144 | a stripped URL without `'/'` is returned unchanged |
| `BaseApi.StripSchemesUrl` | src/test/java/BaseApi/BaseApiTest.java:142 | stripping `scheme + h + "/" + p` gives `h + "/"` followed by the stripped path |
| `BaseApi.HostOfUrlWithPath` | src/test/java/BaseApi/BaseApiTest.java:142-144 | `scheme + h + "/" + p` gives `h` for either scheme and any path, when `h` has no `'/'` and does not end with `':'` |
| `BaseApi.HostOfUrlWithoutPath` | src/test/java/BaseApi/BaseApiTest.java:141-144 | `scheme + h` gives `h` when `h` has no `'/'`, e.g. `"https://www.example.com"` gives `"www.example.com"` |
| `BaseApi.HostFromUrlStripsEveryOccurrence` | src/test/java/BaseApi/BaseApiTest.java:142 | every scheme occurrence is removed, not only the leading one: `"https://ahttps://b"` gives `"ab"` |
| `BaseApi.HostFromUrlMayBeEmpty` | src/test/java/BaseApi/BaseApiTest.java:139-145 | the derivation never fails: `"https:///x"` gives the empty host |
| `BaseApi.HostFromUrlIdempotent` | src/test/java/BaseApi/BaseApiTest.java:139-145 | applying hostFromUrl to its own result changes nothing |
| `BaseApi.RandomEmail` | src/test/java/BaseApi/BaseApiTest.java:74-76 | starts with `"testuser"`, ends with `"@example.com"`, and has only digits in between |
| `BaseApi.RandomEmailTimestamp` | src/test/java/BaseApi/BaseApiTest.java:75 | the digits are the clock reading's decimal rendering and read back as that reading |
| `BaseApi.RandomEmailInjective` | src/test/java/BaseApi/BaseApiTest.java:74-76 | distinct clock readings give distinct addresses |
| `BaseApi.StripPort` | src/test/java/BaseApi/BaseApiTest.java:104-108 | the domain the built cookie keeps: the part of the given domain before its first `':'`, so no port. It holds no `':'`, is a prefix of the given domain, and is followed there by `':'` unless it is all of it. |
| `BaseApi.StripPortUnique` | src/test/java/BaseApi/BaseApiTest.java:104-108 | those three properties determine the kept domain uniquely |
| `BaseApi.SessionCookie` | src/test/java/BaseApi/BaseApiTest.java:100-108 | name `PHPSESSID`, value the session id, path `"/"`, HTTP-only. The domain is the base URL's host with any port dropped, a prefix of the host holding neither `'/'` nor `':'`. |
| `BaseApi.SessionCookieDomain` | src/test/java/BaseApi/BaseApiTest.java:102-108 | a base URL `scheme + h + "/" + p`, with no `':'` in `h`, scopes the cookie to `h` |
| `BaseApi.SessionCookieWithoutPath` | src/test/java/BaseApi/BaseApiTest.java:102-108 | a base URL `scheme + h`, with no `'/'` or `':'` in `h`, scopes the cookie to `h` |
| `BaseApi.SessionCookieDropsPort` | src/test/java/BaseApi/BaseApiTest.java:102-108 | a base URL `scheme + h + ":" + port + "/" + p` scopes the cookie to `h`, without the port |
| `BaseApi.SessionCookieForLocalUrl` | src/test/java/BaseApi/BaseApiTest.java:102-108 | `"http://localhost:8080/"` scopes the cookie to `"localhost"` |
| `BaseApi.SessionCookieForExampleUrl` | src/test/java/BaseApi/BaseApiTest.java:102-108 | `"https://www.example.com/"` scopes the cookie to `"www.example.com"` |
| `BaseApi.DefaultBaseUrlCookieDomain` | src/test/java/BaseApi/BaseApiTest.java:22 | the default base URL `"https://example.com"` scopes the cookie to `"example.com"` |
| `BaseApi.DefaultConfigCookieDomain` | src/test/java/BaseApi/BaseApiTest.java:22 | with `BASE_URL` unset or blank, the cookie is scoped to `"example.com"` |

## Left out

- The HTTP client work is not modelled: `setupRestAssured`, `withDefaultHeaders`, `loginCustomer`, `extractToken` and `extractSessionId`. They are thin calls into RestAssured whose results come from a remote server.
- The browser lifecycle is not modelled: `setupWebDriver`, the `addCookie` and `refresh` calls in `injectSessionIntoBrowser`, and `tearDown`. They are Selenium I/O. Only the cookie record that is handed over is modelled.
- `existingEmail()` is a plain getter and is covered by the `existingEmail` field of `BaseApi.Config`.
- Reading the real environment and the real clock is replaced by parameters.
- The four test classes are not modelled. Their skip guards use the same missing-or-blank test as `BaseApi.Unset`.
- Strings are sequences of Unicode scalar values, not UTF-16 units. Every character that `isBlank` and `trim` single out lies in the Basic Multilingual Plane, so the results are the same.
- JavaStrings.Replace: requires a non-empty target. Java's behaviour for an empty target is not modelled, and the harness never uses one.
- BaseApi.RandomEmail: the clock reading is a `nat`. A negative `long`, from a clock set before 1970, would add a `'-'` sign, and that case is not modelled.
- BaseApi.SessionCookie: a host made only of `':'` characters makes the Selenium cookie constructor's `split(":")` give an empty array, so `build()` throws. The model gives the empty domain instead. Of Selenium's `Cookie` class, only the constructor's port strip is modelled (`BaseApi.StripPort`).
- BaseApi.SessionCookie: only the five fields the harness sets are modelled. The Selenium builder's defaults (no expiry, not secure, no SameSite) are not, and neither is a null session id.
