/** Removing credentials from a database URL before it is shown. */
module Redaction {
  import opened Wrappers
  import opened Text

  const REDACTED: string := "<redacted>@"
  const TOKEN_REDACTED: string := "?<credentials redacted>"

  predicate CarriesToken(url: string) {
    Contains(url, "authToken=") || Contains(url, "auth_token=")
  }

  function SanitizeUrl(url: string): string {
    var at := IndexOf(url, '@');
    var scheme := Find(url, "://");
    if at < |url| && scheme.Some? then
      url[..scheme.value + 3] + REDACTED + url[at + 1..]
    else if CarriesToken(url) then
      Split(url, '?')[0] + TOKEN_REDACTED
    else url
  }

  /** A scheme as URLs have it: neither a colon nor an at-sign. */
  ghost predicate IsScheme(scheme: string) {
    ':' !in scheme && '@' !in scheme
  }

  lemma FindIs(s: string, p: string, k: nat)
    requires OccursAt(s, p, k) && forall i: nat :: i < k ==> !OccursAt(s, p, i)
    ensures Find(s, p) == Some(k)
  {
  }

  lemma SchemeEnd(scheme: string, rest: string)
    requires IsScheme(scheme)
    ensures Find(scheme + "://" + rest, "://") == Some(|scheme|)
  {
    var url := scheme + "://" + rest;
    forall i: nat | i < |scheme| ensures !OccursAt(url, "://", i) {
      if OccursAt(url, "://", i) {
        OccursFirst(url, "://", i);
      }
    }
    assert url[|scheme|..|scheme| + 3] == "://";
    FindIs(url, "://", |scheme|);
  }

  /**
    On scheme://userinfo@rest the result is scheme://<redacted>@rest, the same whatever the user info
    was, exactly when the user info holds no at-sign of its own.
   */
  lemma RedactsExactly(scheme: string, userinfo: string, rest: string)
    requires IsScheme(scheme)
    ensures SanitizeUrl(scheme + "://" + userinfo + "@" + rest) == scheme + "://" + "<redacted>@" + rest
            <==> '@' !in userinfo
  {
    var front := scheme + "://";
    var url := front + userinfo + "@" + rest;
    assert url == front + (userinfo + "@" + rest);
    SchemeEnd(scheme, userinfo + "@" + rest);
    assert '@' !in front;
    IndexOfAppend(front, userinfo + "@" + rest, '@');
    assert url[..|scheme| + 3] == front;
    var k := IndexOf(userinfo, '@');
    var at := |front| + k;
    AtSign(userinfo, rest);
    assert IndexOf(url, '@') == at;
    if k == |userinfo| {
      assert url[at + 1..] == rest;
    } else {
      assert |url[at + 1..]| > |rest|;
    }
  }

  lemma AtSign(userinfo: string, rest: string)
    ensures IndexOf(userinfo + "@" + rest, '@') == IndexOf(userinfo, '@')
  {
    hide IndexOf;
    IndexOfIs(userinfo + "@" + rest, '@', IndexOf(userinfo, '@'));
  }

  /** Sanitising twice is sanitising once, except exactly when an at-sign precedes the scheme's end. */
  lemma IdempotentExactly(url: string)
    ensures SanitizeUrl(SanitizeUrl(url)) == SanitizeUrl(url) <==>
            !(Find(url, "://").Some? && IndexOf(url, '@') < Find(url, "://").value)
  {
    var at := IndexOf(url, '@');
    var scheme := Find(url, "://");
    if at < |url| && scheme.Some? {
      CredentialsTwice(url);
    } else if CarriesToken(url) {
      TokenTwice(url);
    } else {
      OtherForm(url);
    }
  }

  lemma CredentialsForm(url: string)
    requires IndexOf(url, '@') < |url| && Find(url, "://").Some?
    ensures SanitizeUrl(url) == url[..Find(url, "://").value + 3] + REDACTED + url[IndexOf(url, '@') + 1..]
  {
    hide IndexOf, Find;
  }

  lemma OtherForm(url: string)
    requires IndexOf(url, '@') == |url| || Find(url, "://").None?
    ensures SanitizeUrl(url) == if CarriesToken(url) then Split(url, '?')[0] + TOKEN_REDACTED else url
  {
    hide IndexOf, Find, Split;
  }

  /** The three characters of the first "://" are not at-signs. */
  lemma SchemeCharacters(url: string)
    requires Find(url, "://").Some?
    ensures var k := Find(url, "://").value;
            |url| >= k + 3 && url[k] == ':' && url[k + 1] == '/' && url[k + 2] == '/'
  {
    hide Find;
    var k := Find(url, "://").value;
    assert url[k..k + 3] == "://";
    assert url[k..k + 3][0] == ':' && url[k..k + 3][1] == '/' && url[k..k + 3][2] == '/';
  }

  lemma CredentialsTwice(url: string)
    requires IndexOf(url, '@') < |url| && Find(url, "://").Some?
    ensures SanitizeUrl(SanitizeUrl(url)) == SanitizeUrl(url) <==> IndexOf(url, '@') > Find(url, "://").value
  {
    hide IndexOf, Find, OccursAt, SanitizeUrl;
    var at, k := IndexOf(url, '@'), Find(url, "://").value;
    SchemeCharacters(url);
    CredentialsForm(url);
    var once := SanitizeUrl(url);
    assert once[..k + 3] == url[..k + 3];
    SchemeKept(url, once, k);
    if at > k {
      AtAfterSchemeStays(url, once, at, k);
    } else {
      AtBeforeSchemeGrows(url, once, at, k);
    }
  }

  lemma AtAfterSchemeStays(url: string, once: string, at: nat, k: nat)
    requires k + 3 <= at < |url| && IndexOf(url, '@') == at && Find(once, "://") == Some(k)
    requires once == url[..k + 3] + REDACTED + url[at + 1..]
    ensures SanitizeUrl(once) == once
  {
    hide IndexOf, Find, OccursAt, SanitizeUrl;
    FirstAtAfterScheme(url, once, at, k);
    var front, rest := url[..k + 3], url[at + 1..];
    RedactedStays(front, rest, k);
  }

  lemma RedactedStays(front: string, rest: string, k: nat)
    requires |front| == k + 3
    requires Find(front + REDACTED + rest, "://") == Some(k) && IndexOf(front + REDACTED + rest, '@') == k + 13
    ensures SanitizeUrl(front + REDACTED + rest) == front + REDACTED + rest
  {
    hide IndexOf, Find, OccursAt, SanitizeUrl;
    var once := front + REDACTED + rest;
    CredentialsForm(once);
    ThreeParts(front, REDACTED, rest);
  }

  lemma ThreeParts(a: string, b: string, c: string)
    ensures (a + b + c)[..|a|] == a && (a + b + c)[|a| + |b|..] == c
  {
  }

  lemma AtBeforeSchemeGrows(url: string, once: string, at: nat, k: nat)
    requires at < k && k + 3 <= |url| && IndexOf(url, '@') == at && Find(once, "://") == Some(k)
    requires once == url[..k + 3] + REDACTED + url[at + 1..]
    ensures SanitizeUrl(once) != once
  {
    hide IndexOf, Find, OccursAt, SanitizeUrl;
    assert forall i :: 0 <= i <= at ==> once[i] == url[i];
    IndexOfIs(once, '@', at);
    CredentialsForm(once);
    assert |SanitizeUrl(once)| > |once|;
  }

  lemma FirstAtAfterScheme(url: string, once: string, at: nat, k: nat)
    requires k + 3 <= at < |url| && forall i :: 0 <= i < at ==> url[i] != '@'
    requires once == url[..k + 3] + REDACTED + url[at + 1..]
    ensures |once| >= k + 14 && IndexOf(once, '@') == k + 13
  {
    hide IndexOf;
    forall i | 0 <= i < k + 13 ensures once[i] != '@' {
      if i < k + 3 {
        assert once[i] == url[i];
      } else {
        assert once[i] == REDACTED[i - k - 3];
      }
    }
    assert once[k + 13] == REDACTED[10];
    IndexOfIs(once, '@', k + 13);
  }

  /** A longer string with the same first `k + 3` characters has its first "://" in the same place. */
  lemma SchemeKept(url: string, other: string, k: nat)
    requires Find(url, "://") == Some(k) && |other| >= k + 3 && other[..k + 3] == url[..k + 3]
    ensures Find(other, "://") == Some(k)
  {
    forall i: nat | i <= k ensures OccursAt(other, "://", i) == OccursAt(url, "://", i) {
      assert other[i..i + 3] == other[..k + 3][i..i + 3] == url[..k + 3][i..i + 3] == url[i..i + 3];
    }
    FindIs(other, "://", k);
  }

  lemma BeforeQuery(url: string)
    ensures Split(url, '?')[0] == url[..IndexOf(url, '?')]
    ensures Split(url[..IndexOf(url, '?')] + TOKEN_REDACTED, '?')[0] == url[..IndexOf(url, '?')]
  {
    hide IndexOf, Split;
    var base := url[..IndexOf(url, '?')];
    SplitHead(url, '?');
    assert base + TOKEN_REDACTED == base + ['?'] + TOKEN_REDACTED[1..];
    SplitAppend(base, TOKEN_REDACTED[1..], '?');
    SplitWhole(base, '?');
  }

  lemma TokenTwice(url: string)
    requires IndexOf(url, '@') == |url| || Find(url, "://").None?
    requires CarriesToken(url)
    ensures SanitizeUrl(SanitizeUrl(url)) == SanitizeUrl(url)
  {
    hide IndexOf, Find, Split, SanitizeUrl, CarriesToken;
    OtherForm(url);
    BeforeQuery(url);
    var base := url[..IndexOf(url, '?')];
    var once := base + TOKEN_REDACTED;
    if IndexOf(url, '@') == |url| {
      NoAtAppears(url, base);
    } else {
      NoSchemeAppears(url, base);
    }
    OtherForm(once);
  }

  lemma NoAtAppears(url: string, base: string)
    requires IndexOf(url, '@') == |url| && base <= url
    ensures IndexOf(base + TOKEN_REDACTED, '@') == |base + TOKEN_REDACTED|
  {
    hide IndexOf;
    var once := base + TOKEN_REDACTED;
    forall i | 0 <= i < |once| ensures once[i] != '@' {
      if i < |base| { assert once[i] == url[i]; } else { assert once[i] == TOKEN_REDACTED[i - |base|]; }
    }
  }

  lemma NoSchemeAppears(url: string, base: string)
    requires Find(url, "://").None? && base <= url
    ensures Find(base + TOKEN_REDACTED, "://").None?
  {
    var once := base + TOKEN_REDACTED;
    assert once[|base|] == TOKEN_REDACTED[0] == '?' && once[|base| + 1] == TOKEN_REDACTED[1] == '<';
    assert forall i :: |base| <= i < |once| ==> once[i] == TOKEN_REDACTED[i - |base|] != ':';
    forall i: nat ensures !OccursAt(once, "://", i) {
      if OccursAt(once, "://", i) {
        OccursFirst(once, "://", i);
        assert i < |base|;
        assert once[i + 2] == once[i..i + 3][2] == '/';
        assert i + 2 < |base|;
        assert once[i..i + 3] == url[i..i + 3];
        assert OccursAt(url, "://", i);
      }
    }
  }

  // The token branch.

  /** The text of either token parameter stands somewhere in `s`. */
  ghost predicate MentionsToken(s: string) {
    exists i: nat :: OccursAt(s, "authToken=", i) || OccursAt(s, "auth_token=", i)
  }

  lemma CarriesTokenExactly(url: string)
    ensures CarriesToken(url) <==> MentionsToken(url)
  {
  }

  lemma OccursBehind(front: string, s: string, p: string, i: nat)
    requires OccursAt(s, p, i)
    ensures OccursAt(front + s, p, |front| + i)
  {
    assert (front + s)[|front| + i..|front| + i + |p|] == s[i..i + |p|];
  }

  /** A token in the query is a token in the URL. */
  lemma QueryMentions(base: string, query: string)
    requires MentionsToken(query)
    ensures MentionsToken(base + "?" + query)
  {
    hide OccursAt;
    var i: nat :| OccursAt(query, "authToken=", i) || OccursAt(query, "auth_token=", i);
    if OccursAt(query, "authToken=", i) {
      OccursBehind(base + "?", query, "authToken=", i);
    } else {
      OccursBehind(base + "?", query, "auth_token=", i);
    }
  }

  /** A token in the query goes, with the whole query, unless the URL holds both an at-sign and a scheme's end. */
  lemma TokenRedacted(base: string, query: string)
    requires '?' !in base && (MentionsToken(query) || MentionsToken(base + "?" + query))
    requires '@' !in base + "?" + query || Find(base + "?" + query, "://").None?
    ensures SanitizeUrl(base + "?" + query) == base + "?<credentials redacted>"
  {
    hide IndexOf, Find, Split, CarriesToken, SanitizeUrl, MentionsToken;
    if MentionsToken(query) {
      QueryMentions(base, query);
    }
    CarriesTokenExactly(base + "?" + query);
    var url := base + "?" + query;
    IndexOfIs(url, '?', |base|);
    assert url[..|base|] == base;
    SplitHead(url, '?');
    OtherForm(url);
  }

  /** A URL without credentials to remove is shown as it is. */
  lemma NothingToRedact(url: string)
    requires ('@' !in url || Find(url, "://").None?) && !MentionsToken(url)
    ensures SanitizeUrl(url) == url
  {
    hide IndexOf, Find, Split, CarriesToken, MentionsToken;
    CarriesTokenExactly(url);
  }

  /** What becomes of scheme://host?query when its first at-sign stands in the host. */
  lemma AtInHostKeepsTheQuery(scheme: string, host: string, query: string)
    requires IsScheme(scheme) && '@' in host
    ensures SanitizeUrl(scheme + "://" + host + "?" + query)
            == scheme + "://" + REDACTED + host[IndexOf(host, '@') + 1..] + "?" + query
  {
    hide IndexOf, SanitizeUrl;
    var k := IndexOf(host, '@');
    var user, rest := host[..k], host[k + 1..] + "?" + query;
    assert host == user + "@" + host[k + 1..];
    assert scheme + "://" + host + "?" + query == scheme + "://" + user + "@" + rest;
    RedactsExactly(scheme, user, rest);
  }

  /** And when it stands in the query: what follows it there is kept. */
  lemma AtInQueryKeepsItsTail(scheme: string, host: string, query: string)
    requires IsScheme(scheme) && '@' !in host && '@' in query
    ensures SanitizeUrl(scheme + "://" + host + "?" + query)
            == scheme + "://" + REDACTED + query[IndexOf(query, '@') + 1..]
  {
    hide IndexOf, SanitizeUrl;
    var k := IndexOf(query, '@');
    var user, rest := host + "?" + query[..k], query[k + 1..];
    assert query == query[..k] + "@" + rest;
    assert scheme + "://" + host + "?" + query == scheme + "://" + user + "@" + rest;
    RedactsExactly(scheme, user, rest);
  }

  /** The host and the query are those of a URL that was redacted before. */
  predicate AlreadyRedacted(host: string, query: string) {
    StartsWith(host, REDACTED) && query == TOKEN_REDACTED[1..]
  }

  /**
    On scheme://host?query with a token, the query is replaced by the marker exactly when neither host nor query
    holds an at-sign (or the URL was redacted already).
   */
  lemma TokenRedactedExactly(scheme: string, host: string, query: string)
    requires IsScheme(scheme) && '?' !in scheme && '?' !in host
    requires MentionsToken(scheme + "://" + host + "?" + query)
    ensures SanitizeUrl(scheme + "://" + host + "?" + query) == scheme + "://" + host + TOKEN_REDACTED
            <==> ('@' !in host && '@' !in query) || AlreadyRedacted(host, query)
  {
    hide IndexOf, SanitizeUrl, MentionsToken, Find, AlreadyRedacted;
    var front := scheme + "://";
    if '@' in host {
      AtInHostKeepsTheQuery(scheme, host, query);
      KeptQueryIsTheMarker(front, host, query);
    } else if '@' in query {
      AtInQueryKeepsItsTail(scheme, host, query);
      AtSignTellsApart(front, host, query[IndexOf(query, '@') + 1..]);
      NotYetRedacted(host, query);
    } else {
      TokenRedacted(front + host, query);
    }
  }

  lemma NotYetRedacted(host: string, query: string)
    requires '@' !in host
    ensures !AlreadyRedacted(host, query)
  {
    assert REDACTED[10] == '@';
  }

  lemma KeptQueryIsTheMarker(front: string, host: string, query: string)
    requires '@' in host && '?' !in host
    ensures front + REDACTED + host[IndexOf(host, '@') + 1..] + "?" + query == front + host + TOKEN_REDACTED
            <==> AlreadyRedacted(host, query)
  {
    hide IndexOf;
    RedactedHost(host);
    var tail, marker := host[IndexOf(host, '@') + 1..], TOKEN_REDACTED[1..];
    assert TOKEN_REDACTED == "?" + marker && '?' !in REDACTED;
    KeptQuery(front, REDACTED, tail, query, host, marker);
  }

  lemma KeptQuery(front: string, mark: string, tail: string, query: string, host: string, marker: string)
    requires '?' !in mark && '?' !in tail && '?' !in host
    ensures front + mark + tail + "?" + query == front + host + ("?" + marker) <==> mark + tail == host && query == marker
  {
    FirstSplit(front, mark + tail, query, host, marker);
    assert front + mark + tail + "?" + query == front + (mark + tail) + "?" + query;
    assert front + host + ("?" + marker) == front + host + "?" + marker;
  }

  /** Redacting a host's user info gives the host back exactly when it was redacted. */
  lemma RedactedHost(host: string)
    requires '@' in host
    ensures REDACTED + host[IndexOf(host, '@') + 1..] == host <==> StartsWith(host, REDACTED)
  {
    hide IndexOf;
    if StartsWith(host, REDACTED) {
      assert host[10] == REDACTED[10] == '@';
      assert forall i :: 0 <= i < 10 ==> host[i] == REDACTED[i] != '@';
      IndexOfIs(host, '@', 10);
    }
  }

  /** Two strings with the same front, split at the first question mark after it. */
  lemma FirstSplit(front: string, a: string, x: string, b: string, y: string)
    requires '?' !in a && '?' !in b
    ensures front + a + "?" + x == front + b + "?" + y <==> a == b && x == y
  {
    var s, t := front + a + "?" + x, front + b + "?" + y;
    if s == t {
      assert s[|front| + |a|] == '?' && t[|front| + |b|] == '?';
      assert forall i :: 0 <= i < |a| ==> s[|front| + i] == a[i];
      assert forall i :: 0 <= i < |b| ==> t[|front| + i] == b[i];
      assert |a| == |b|;
      assert a == s[|front|..|front| + |a|] && b == t[|front|..|front| + |b|];
      assert x == s[|front| + |a| + 1..] && y == t[|front| + |b| + 1..];
    }
  }

  lemma AtSignTellsApart(front: string, host: string, tail: string)
    requires '@' !in host
    ensures front + REDACTED + tail != front + host + TOKEN_REDACTED
  {
    var left, right := front + REDACTED + tail, front + host + TOKEN_REDACTED;
    var at := |front| + 10;
    assert left[at] == REDACTED[10] == '@';
    if at < |front| + |host| {
      assert right[at] == host[10];
    } else if at < |right| {
      assert right[at] == TOKEN_REDACTED[at - |front| - |host|] != '@';
    }
  }

  /** User info makes the token survive, for every user, host and token. */
  lemma UserInfoKeepsTheToken(scheme: string, user: string, host: string, token: string)
    requires IsScheme(scheme) && '@' !in user
    ensures SanitizeUrl(scheme + "://" + user + "@" + host + "?authToken=" + token)
            == scheme + "://" + REDACTED + host + "?authToken=" + token
  {
    hide SanitizeUrl;
    var rest := host + "?authToken=" + token;
    assert scheme + "://" + user + "@" + host + "?authToken=" + token == scheme + "://" + user + "@" + rest;
    RedactsExactly(scheme, user, rest);
  }
}
