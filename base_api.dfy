/**
 The shared test harness BaseApiTest: its configuration lookups, the
 configuration it loads when a test class is constructed, the cookie domain
 it derives from the base URL, the throw-away e-mail address it generates and
 the session cookie it hands to the browser.

 The process environment is a map from variable names to values, the clock
 reading is a parameter, and an IllegalStateException is a `Failure` carrying
 its message.
 */
module BaseApi {
  import opened JavaStrings

  datatype Option<+T> = None | Some(value: T)

  /** The outcome of an operation that may throw IllegalStateException. */
  datatype Result<+T> = Success(value: T) | Failure(message: string)

  // ---------------------------------------------------------------------
  // Environment lookups: getEnv and requireEnv
  // ---------------------------------------------------------------------

  /** System.getenv: the value of `key`, or None when it is not set. */
  function Lookup(env: map<string, string>, key: string): (v: Option<string>)
    ensures v.Some? <==> key in env
    ensures v.Some? ==> v.value == env[key]
  {
    if key in env then Some(env[key]) else None
  }

  /** `v == null || v.isBlank()`: the test both lookups share. */
  predicate Unset(v: Option<string>) {
    v.None? || IsBlank(v.value)
  }

  /**
   getEnv: the trimmed value of `key`, or `default` when the variable is
   missing or blank. The default is returned as given, not trimmed.
   */
  function GetEnv(env: map<string, string>, key: string, default: string): (r: string)
    ensures Unset(Lookup(env, key)) ==> r == default
    ensures !Unset(Lookup(env, key)) ==> r == Trim(env[key]) && IsTrimmed(r)
  {
    var v := Lookup(env, key);
    if v.None? || IsBlank(v.value) then default else Trim(v.value)
  }

  /** A value taken from the environment is already trimmed: trimming it again changes nothing. */
  lemma GetEnvValueIsTrimmed(env: map<string, string>, key: string, default: string)
    requires !Unset(Lookup(env, key))
    ensures Trim(GetEnv(env, key, default)) == GetEnv(env, key, default)
  {
    TrimFixesTrimmed(GetEnv(env, key, default));
  }

  /**
   A variable that is set and not blank can still yield the empty string:
   U+0001 is not whitespace, so "\U{1}" is not blank, but trim removes it.
   Callers cannot rely on a value taken from the environment being non-empty.
   */
  lemma GetEnvMayBeEmpty(env: map<string, string>, key: string, default: string)
    requires key in env && env[key] == "\U{1}"
    ensures !Unset(Lookup(env, key))
    ensures GetEnv(env, key, default) == ""
  {
    var v := env[key];
    assert !IsWhitespace(v[0]);
    assert v[1..] == [];
    assert LeadingCount(v) == 1;
  }

  const MissingPrefix: string := "#######"
  const MissingSuffix: string := " (####)"

  /** The message of the IllegalStateException requireEnv throws for `key`. */
  function MissingMessage(key: string): (msg: string)
    ensures MissingPrefix <= msg
    ensures OccursAt(msg, |MissingPrefix|, key)
  {
    var msg := MissingPrefix + key + MissingSuffix;
    assert msg[|MissingPrefix|..|MissingPrefix| + |key|] == key;
    msg
  }

  /**
   requireEnv: fails, with a message that names `key`, exactly when the
   variable is missing or blank; otherwise gives its trimmed value.
   */
  function RequireEnv(env: map<string, string>, key: string): (r: Result<string>)
    ensures r.Failure? <==> Unset(Lookup(env, key))
    ensures r.Failure? ==> r.message == MissingMessage(key) && OccursAt(r.message, |MissingPrefix|, key)
    ensures r.Success? ==> r.value == Trim(env[key]) && IsTrimmed(r.value)
  {
    var v := Lookup(env, key);
    if v.None? || IsBlank(v.value) then Failure(MissingMessage(key)) else Success(Trim(v.value))
  }

  /**
   requireEnv and getEnv read a variable the same way: where requireEnv
   succeeds, getEnv gives the same value whatever its default, and where
   requireEnv fails, getEnv falls back to its default.
   */
  lemma RequireEnvAgreesWithGetEnv(env: map<string, string>, key: string, default: string)
    ensures RequireEnv(env, key).Success? ==> RequireEnv(env, key).value == GetEnv(env, key, default)
    ensures RequireEnv(env, key).Failure? ==> GetEnv(env, key, default) == default
  {
  }

  // ---------------------------------------------------------------------
  // The configuration read by the field initialisers
  // ---------------------------------------------------------------------

  const BaseUrlVar: string := "BASE_URL"
  const DefaultBaseUrl: string := "https://example.com"
  const ApiKeyVar: string := "########"
  const ApiSecretVar: string := "######"
  const ExistingEmailVar: string := "EXISTING_EMAIL"
  const DefaultExistingEmail: string := "test.user@example.com"

  /** The four final fields a BaseApiTest instance holds once constructed. */
  datatype Config = Config(baseUrl: string, apiKey: string, apiSecret: string, existingEmail: string)

  /**
   Constructing a BaseApiTest runs its field initialisers in declaration
   order: the base URL and the demo e-mail fall back to safe defaults, while
   a missing API key or secret aborts construction. The key is read before
   the secret, so when both are missing the key is the one reported.
   */
  function LoadConfig(env: map<string, string>): (r: Result<Config>)
    ensures r.Success? <==> !Unset(Lookup(env, ApiKeyVar)) && !Unset(Lookup(env, ApiSecretVar))
    ensures Unset(Lookup(env, ApiKeyVar)) ==> r == Failure(MissingMessage(ApiKeyVar))
    ensures !Unset(Lookup(env, ApiKeyVar)) && Unset(Lookup(env, ApiSecretVar)) ==>
              r == Failure(MissingMessage(ApiSecretVar))
    ensures r.Success? ==>
              && r.value.baseUrl == GetEnv(env, BaseUrlVar, DefaultBaseUrl)
              && r.value.apiKey == Trim(env[ApiKeyVar])
              && r.value.apiSecret == Trim(env[ApiSecretVar])
              && r.value.existingEmail == GetEnv(env, ExistingEmailVar, DefaultExistingEmail)
  {
    var baseUrl := GetEnv(env, BaseUrlVar, DefaultBaseUrl);
    match RequireEnv(env, ApiKeyVar)
    case Failure(msg) => Failure(msg)
    case Success(apiKey) =>
      match RequireEnv(env, ApiSecretVar)
      case Failure(msg) => Failure(msg)
      case Success(apiSecret) =>
        Success(Config(baseUrl, apiKey, apiSecret, GetEnv(env, ExistingEmailVar, DefaultExistingEmail)))
  }

  // ---------------------------------------------------------------------
  // hostFromUrl: the cookie domain
  // ---------------------------------------------------------------------

  const Https: string := "https://"
  const Http: string := "http://"

  /** `url.replace("https://", "").replace("http://", "")`. */
  function StripSchemes(url: string): (cleaned: string)
    ensures |cleaned| <= |url|
  {
    Replace(Replace(url, Https, ""), Http, "")
  }

  /**
   hostFromUrl: the scheme-stripped URL up to, not including, its first '/'.
   The result is a prefix of the stripped URL, holds no '/', and is followed
   in it by a '/' unless it is the whole of it.
   */
  function HostFromUrl(url: string): (host: string)
    ensures '/' !in host
    ensures host <= StripSchemes(url)
    ensures |host| < |StripSchemes(url)| ==> StripSchemes(url)[|host|] == '/'
  {
    var cleaned := StripSchemes(url);
    var slash := IndexOf(cleaned, '/');
    if slash == -1 then cleaned else cleaned[..slash]
  }

  /** HostFromUrl's three postconditions determine its result. */
  lemma HostFromUrlUnique(url: string, h: string)
    requires '/' !in h
    requires h <= StripSchemes(url)
    requires |h| < |StripSchemes(url)| ==> StripSchemes(url)[|h|] == '/'
    ensures HostFromUrl(url) == h
  {
  }

  /** When the stripped URL has no path, it is the host as it stands. */
  lemma HostFromUrlWithoutPath(url: string)
    requires '/' !in StripSchemes(url)
    ensures HostFromUrl(url) == StripSchemes(url)
  {
  }

  /** A string without '/' holds no occurrence of a pattern that has one. */
  lemma SlashFreeAbsent(s: string, pat: string)
    requires '/' !in s && '/' in pat
    ensures Absent(s, pat)
  {
    var j :| 0 <= j < |pat| && pat[j] == '/';
    forall i | 0 <= i < |s| ensures !OccursAt(s, i, pat) {
      if i + |pat| <= |s| {
        assert s[i..i + |pat|][j] == s[i + j] != '/';
      }
    }
  }

  /**
   A scheme pattern cannot start inside a host `h` followed by a '/', unless
   the host ends with the scheme's ':' and the pattern's "//" spans the
   separator. `k` is the position of the pattern's first '/'. Excluding every
   host that ends with ':' is sufficient, not necessary: only a host ending
   in "https:" or "http:" actually lets a scheme span the separator.
   */
  lemma NoSchemeInHost(h: string, t: string, pat: string, k: nat)
    requires '/' !in h && !EndsWithColon(h)
    requires |t| > 0 && t[0] == '/'
    requires 0 < k < |pat| && pat[k] == '/' && pat[k - 1] == ':' && '/' !in pat[..k]
    ensures forall i :: 0 <= i < |h| ==> !OccursAt(h + t, i, pat)
  {
    var s := h + t;
    forall i | 0 <= i < |h| ensures !OccursAt(s, i, pat) {
      if i + |pat| <= |s| {
        var w := s[i..i + |pat|];
        if i + k < |h| {
          assert w[k] == h[i + k] != '/';
        } else if i + k > |h| {
          var j := |h| - i;
          assert pat[j] == pat[..k][j] != '/';
          assert w[j] == t[0] == '/';
        } else {
          assert w[k - 1] == h[|h| - 1] != ':';
        }
      }
    }
  }

  predicate EndsWithColon(h: string) {
    |h| > 0 && h[|h| - 1] == ':'
  }

  /** "http://" followed by anything holds no "https://" in its first seven places. */
  lemma HttpHoldsNoHttps(t: string)
    ensures forall i :: 0 <= i < |Http| ==> !OccursAt(Http + t, i, Https)
  {
    var s := Http + t;
    forall i | 0 <= i < |Http| ensures !OccursAt(s, i, Https) {
      if i + |Https| <= |s| {
        if i == 0 {
          assert s[i..i + |Https|][4] == ':' != Https[4];
        } else {
          assert s[i..i + |Https|][0] == Http[i] != Https[0];
        }
      }
    }
  }

  /** A leading '/' is never the start of a scheme and passes through a replacement. */
  lemma ReplaceAfterSlash(t: string, pat: string)
    requires |pat| > 0 && pat[0] != '/'
    ensures Replace("/" + t, pat, "") == "/" + Replace(t, pat, "")
  {
    ReplaceKeepsPrefix("/", t, pat, "");
  }

  /** One scheme pass leaves a host followed by a path as host + "/" + (the path, with that pass applied). */
  lemma ReplaceHostPath(h: string, p: string, pat: string, k: nat)
    requires '/' !in h && !EndsWithColon(h)
    requires 0 < k < |pat| && pat[0] != '/' && pat[k] == '/' && pat[k - 1] == ':' && '/' !in pat[..k]
    ensures Replace(h + "/" + p, pat, "") == h + "/" + Replace(p, pat, "")
  {
    NoSchemeInHost(h, "/" + p, pat, k);
    ReplaceKeepsPrefix(h, "/" + p, pat, "");
    ReplaceAfterSlash(p, pat);
    assert h + "/" + p == h + ("/" + p);
    assert h + "/" + Replace(p, pat, "") == h + ("/" + Replace(p, pat, ""));
  }

  /** Both scheme passes leave a host followed by a path as host + "/" + (the path, stripped). */
  lemma StripSchemesHostPath(h: string, p: string)
    requires '/' !in h && !EndsWithColon(h)
    ensures StripSchemes(h + "/" + p) == h + "/" + StripSchemes(p)
  {
    assert Https[..6] == "https:" && Http[..5] == "http:";
    ReplaceHostPath(h, p, Https, 6);
    ReplaceHostPath(h, Replace(p, Https, ""), Http, 5);
  }

  /**
   For `scheme + h + "/" + p`, with either scheme, the stripped URL is
   h + "/" followed by the stripped path.
   */
  lemma {:induction false} StripSchemesUrl(scheme: string, h: string, p: string)
    requires scheme == Https || scheme == Http
    requires '/' !in h && !EndsWithColon(h)
    ensures StripSchemes(scheme + h + "/" + p) == h + "/" + StripSchemes(p)
  {
    var rest := h + "/" + p;
    assert scheme + h + "/" + p == scheme + rest;
    if scheme == Https {
      ReplaceLeading(rest, Https, "");
      assert Replace(Https + rest, Https, "") == Replace(rest, Https, "");
      StripSchemesHostPath(h, p);
    } else {
      var rest1 := Replace(rest, Https, "");
      HttpHoldsNoHttps(rest);
      ReplaceKeepsPrefix(Http, rest, Https, "");
      ReplaceLeading(rest1, Http, "");
      StripSchemesHostPath(h, p);
    }
  }

  /**
   For `scheme + h + "/" + p`, with either scheme, hostFromUrl returns `h`,
   whatever the path holds, as long as `h` has no '/' and does not end with
   ':'. Some condition on the end of `h` is needed (see
   HostFromUrlStripsEveryOccurrence); this one is sufficient, not necessary,
   since only a host ending in "https:" or "http:" breaks the property.
   */
  lemma HostOfUrlWithPath(scheme: string, h: string, p: string)
    requires scheme == Https || scheme == Http
    requires '/' !in h && !EndsWithColon(h)
    ensures HostFromUrl(scheme + h + "/" + p) == h
  {
    var url := scheme + h + "/" + p;
    StripSchemesUrl(scheme, h, p);
    var cleaned := h + "/" + StripSchemes(p);
    assert h <= cleaned;
    assert cleaned[|h|] == '/';
    HostFromUrlUnique(url, h);
  }

  /** For `scheme + h` with no '/' in `h`, hostFromUrl returns `h`. */
  lemma HostOfUrlWithoutPath(scheme: string, h: string)
    requires scheme == Https || scheme == Http
    requires '/' !in h
    ensures HostFromUrl(scheme + h) == h
  {
    SlashFreeAbsent(h, Https);
    SlashFreeAbsent(h, Http);
    ReplaceAbsent(h, Https, "");
    ReplaceAbsent(h, Http, "");
    if scheme == Https {
      ReplaceLeading(h, Https, "");
      assert Replace(Https + h, Https, "") == h;
    } else {
      HttpHoldsNoHttps(h);
      ReplaceKeepsPrefix(Http, h, Https, "");
      ReplaceLeading(h, Http, "");
      assert Replace(Http + h, Http, "") == h;
    }
    assert StripSchemes(scheme + h) == h;
    HostFromUrlWithoutPath(scheme + h);
  }

  /**
   hostFromUrl never fails: a base URL with an empty host, such as
   "https:///x", gives the empty cookie domain instead of an error.
   */
  lemma HostFromUrlMayBeEmpty()
    ensures HostFromUrl("https:///x") == ""
  {
    assert "https:///x" == Https + "" + "/" + "x";
    HostOfUrlWithPath(Https, "", "x");
  }

  /** hostFromUrl applied to its own result changes nothing. */
  lemma HostFromUrlIdempotent(url: string)
    ensures HostFromUrl(HostFromUrl(url)) == HostFromUrl(url)
  {
    var host := HostFromUrl(url);
    SlashFreeAbsent(host, Https);
    SlashFreeAbsent(host, Http);
    ReplaceAbsent(host, Https, "");
    ReplaceAbsent(host, Http, "");
    HostFromUrlWithoutPath(host);
  }

  /**
   replace removes every occurrence, not only a leading scheme: in
   "https://ahttps://b" the second "https://" goes too, so the host is "ab"
   where stripping only the leading scheme would give "ahttps:". The host
   "ahttps:" holds no '/' and no scheme, and the path "/b" holds no scheme,
   so some condition on the end of the host is needed in HostOfUrlWithPath.
   */
  lemma HostFromUrlStripsEveryOccurrence()
    ensures HostFromUrl(Https + "ahttps:" + "/" + "/b") == "ab"
  {
    var url := Https + "ahttps:" + "/" + "/b";
    assert url == Https + ("a" + (Https + "b"));
    ReplaceLeading("a" + (Https + "b"), Https, "");
    MismatchAt("a" + (Https + "b"), 0, Https, 0);
    ReplaceKeepsFirst("a" + (Https + "b"), Https, "");
    assert ("a" + (Https + "b"))[1..] == Https + "b";
    ReplaceLeading("b", Https, "");
    assert Replace("b", Https, "") == "b";
    assert Replace("ab", Http, "") == "ab";
    HostFromUrlWithoutPath(url);
  }

  /**
   replace makes a single pass: once an occurrence is removed, the text on
   either side is joined and not scanned again, even where the join forms a
   new occurrence.
   */
  lemma ReplaceDoesNotRescan(x: string, y: string, target: string)
    requires |target| > 0
    requires forall i :: 0 <= i < |x| ==> !OccursAt(x + target + y, i, target)
    requires Absent(y, target)
    ensures Replace(x + target + y, target, "") == x + y
  {
    var s := x + target + y;
    var rest := target + y;
    assert s == x + rest;
    forall i | 0 <= i < |x| ensures !OccursAt(x + rest, i, target) {
      assert !OccursAt(s, i, target);
    }
    ReplaceKeepsPrefix(x, rest, target, "");
    ReplaceLeading(y, target, "");
    ReplaceAbsent(y, target, "");
    assert Replace(rest, target, "") == y;
  }

  /** Removing "https://" from "hthttps://tps://" leaves a new "https://". */
  lemma ReplaceIsSinglePass()
    ensures Replace("hthttps://tps://", Https, "") == Https
  {
    var x, y := "ht", "tps://";
    var s := x + Https + y;
    assert s == "hthttps://tps://";
    assert x + y == Https;
    assert s[4] == 't' && s[1] == 't';
    MismatchAt(s, 0, Https, 4);
    MismatchAt(s, 1, Https, 0);
    ReplaceDoesNotRescan(x, y, Https);
  }

  // ---------------------------------------------------------------------
  // randomEmail
  // ---------------------------------------------------------------------

  const EmailPrefix: string := "testuser"
  const EmailSuffix: string := "@example.com"

  /**
   randomEmail: "testuser", the clock reading in milliseconds written in
   decimal, then "@example.com".
   */
  function RandomEmail(millis: nat): (email: string)
    ensures |email| > |EmailPrefix| + |EmailSuffix|
    ensures email[..|EmailPrefix|] == EmailPrefix
    ensures email[|email| - |EmailSuffix|..] == EmailSuffix
    ensures forall i :: |EmailPrefix| <= i < |email| - |EmailSuffix| ==> IsDigit(email[i])
  {
    var email := EmailPrefix + Decimal(millis) + EmailSuffix;
    assert email[..|EmailPrefix|] == EmailPrefix;
    assert email[|email| - |EmailSuffix|..] == EmailSuffix;
    assert forall i :: |EmailPrefix| <= i < |email| - |EmailSuffix| ==> email[i] == Decimal(millis)[i - |EmailPrefix|];
    email
  }

  /** The digits between prefix and suffix of a generated address. */
  function EmailDigits(email: string): (digits: string)
    requires |email| >= |EmailPrefix| + |EmailSuffix|
  {
    email[|EmailPrefix|..|email| - |EmailSuffix|]
  }

  /** The clock reading can be read back from the address it produced. */
  lemma RandomEmailTimestamp(millis: nat)
    ensures EmailDigits(RandomEmail(millis)) == Decimal(millis)
    ensures ParseDecimal(EmailDigits(RandomEmail(millis))) == millis
  {
    var email := RandomEmail(millis);
    assert EmailDigits(email) == Decimal(millis);
    DecimalRoundTrip(millis);
  }

  /** Distinct clock readings give distinct addresses. */
  lemma RandomEmailInjective(m: nat, n: nat)
    requires m != n
    ensures RandomEmail(m) != RandomEmail(n)
  {
    RandomEmailTimestamp(m);
    RandomEmailTimestamp(n);
  }

  // ---------------------------------------------------------------------
  // The session cookie built by injectSessionIntoBrowser
  // ---------------------------------------------------------------------

  const SessionCookieName: string := "PHPSESSID"

  /** The fields of the Selenium Cookie that the harness sets. */
  datatype Cookie = Cookie(name: string, value: string, domain: string, path: string, httpOnly: bool)

  /**
   The domain a built Selenium Cookie holds: its constructor keeps only what
   precedes the first ':' of the domain it is given, so a port is dropped.
   */
  function StripPort(domain: string): (d: string)
    ensures ':' !in d
    ensures d <= domain
    ensures |d| < |domain| ==> domain[|d|] == ':'
  {
    var colon := IndexOf(domain, ':');
    if colon == -1 then domain else domain[..colon]
  }

  /** StripPort's three postconditions determine its result. */
  lemma StripPortUnique(domain: string, d: string)
    requires ':' !in d
    requires d <= domain
    requires |d| < |domain| ==> domain[|d|] == ':'
    ensures StripPort(domain) == d
  {
  }

  /**
   The cookie injectSessionIntoBrowser adds: PHPSESSID carrying the session
   id, scoped to the host of the base URL without its port and to the whole
   site, HTTP-only.
   */
  function SessionCookie(baseUrl: string, sessionId: string): (c: Cookie)
    ensures c.name == SessionCookieName && c.value == sessionId
    ensures c.domain == StripPort(HostFromUrl(baseUrl))
    ensures c.domain <= HostFromUrl(baseUrl) && '/' !in c.domain && ':' !in c.domain
    ensures c.path == "/" && c.httpOnly
  {
    Cookie(SessionCookieName, sessionId, StripPort(HostFromUrl(baseUrl)), "/", true)
  }

  /** A base URL `scheme + h + "/" + p`, with no port in `h`, scopes the session cookie to `h`. */
  lemma SessionCookieDomain(scheme: string, h: string, p: string, sessionId: string)
    requires scheme == Https || scheme == Http
    requires '/' !in h && ':' !in h
    ensures SessionCookie(scheme + h + "/" + p, sessionId).domain == h
  {
    HostOfUrlWithPath(scheme, h, p);
    StripPortUnique(h, h);
  }

  /** A base URL `scheme + h + ":" + port + "/" + p` scopes the session cookie to `h`: the port is dropped. */
  lemma SessionCookieDropsPort(scheme: string, h: string, port: string, p: string, sessionId: string)
    requires scheme == Https || scheme == Http
    requires '/' !in h && ':' !in h
    requires |port| > 0 && '/' !in port && ':' !in port
    ensures SessionCookie(scheme + h + ":" + port + "/" + p, sessionId).domain == h
  {
    var host := h + ":" + port;
    assert '/' !in host by {
      forall i | 0 <= i < |host| ensures host[i] != '/' {
        if i < |h| { assert host[i] == h[i]; }
        else if i > |h| { assert host[i] == port[i - |h| - 1]; }
      }
    }
    assert host[|host| - 1] == port[|port| - 1];
    assert scheme + h + ":" + port + "/" + p == scheme + host + "/" + p;
    HostOfUrlWithPath(scheme, host, p);
    assert host[|h|] == ':';
    assert h <= host;
    StripPortUnique(host, h);
  }

  /** "http://localhost:8080/" scopes the cookie to "localhost". */
  lemma SessionCookieForLocalUrl(sessionId: string)
    ensures SessionCookie("http://localhost:8080/", sessionId).domain == "localhost"
  {
    assert "http://localhost:8080/" == Http + "localhost" + ":" + "8080" + "/" + "";
    SessionCookieDropsPort(Http, "localhost", "8080", "", sessionId);
  }

  /** A base URL `scheme + h`, with no path and no port in `h`, scopes the session cookie to `h`. */
  lemma SessionCookieWithoutPath(scheme: string, h: string, sessionId: string)
    requires scheme == Https || scheme == Http
    requires '/' !in h && ':' !in h
    ensures SessionCookie(scheme + h, sessionId).domain == h
  {
    HostOfUrlWithoutPath(scheme, h);
    StripPortUnique(h, h);
  }

  /** "https://www.example.com/" scopes the cookie to "www.example.com". */
  lemma SessionCookieForExampleUrl(sessionId: string)
    ensures SessionCookie("https://www.example.com/", sessionId).domain == "www.example.com"
  {
    assert "https://www.example.com/" == Https + "www.example.com" + "/" + "";
    SessionCookieDomain(Https, "www.example.com", "", sessionId);
  }

  /** With BASE_URL unset or blank, the session cookie is scoped to "example.com". */
  lemma DefaultConfigCookieDomain(env: map<string, string>, sessionId: string)
    requires LoadConfig(env).Success? && Unset(Lookup(env, BaseUrlVar))
    ensures SessionCookie(LoadConfig(env).value.baseUrl, sessionId).domain == "example.com"
  {
    assert LoadConfig(env).value.baseUrl == DefaultBaseUrl;
    DefaultBaseUrlCookieDomain(sessionId);
  }

  /** The default base URL scopes the session cookie to "example.com". */
  lemma DefaultBaseUrlCookieDomain(sessionId: string)
    ensures SessionCookie(DefaultBaseUrl, sessionId).domain == "example.com"
  {
    var host := "example.com";
    assert DefaultBaseUrl == Https + host;
    SessionCookieWithoutPath(Https, host, sessionId);
  }
}
